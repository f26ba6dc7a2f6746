/**
 src/util/half_float.c, continued: widening by one multiplication with a magic power of two, the neighbouring half,
 and the directed roundings built from the two.
 */
module MesaDirected {
  import opened Bits
  import opened ClHalf
  import opened Conversion
  import opened ConversionLaws
  import opened Formats
  import opened MesaHalf
  import opened Powers
  import opened Rounding
  import opened Widening

  // ----- _mesa_half_to_float_slow -----

  /** Binary32 with the exponent bias of binary16: what a half's bits, moved to a float's place, denote. */
  const REBIASED: Format := Format(24, 15)

  /** The float that the code multiplies by: exponent field 0xEF, which is 2^112. */
  const MAGIC: nat := 0xEF * 0x80_0000

  /** Magnitude n times 2^112 in binary32, for a product that is not rounded. */
  function TimesMagic(n: nat): nat {
    WidenMag(REBIASED, FLOAT, n)
  }

  lemma TimesMagicExact(n: nat)
    ensures Value(FLOAT, TimesMagic(n)) == Value(REBIASED, n)
    ensures IsProduct(Value(FLOAT, TimesMagic(n)), Value(FLOAT, n), Exp2(112))
  {
    hide Exp2, WidenMag, ExponentField, Trailing, Hidden;
    WidenMagExact(REBIASED, FLOAT, n);
    var e: int := ExponentField(FLOAT, n);
    var s := Significand(FLOAT, e, Trailing(FLOAT, n)) as real;
    Exp2Sum(112, (if e == 0 then 1 else e) - 150);
    SameFields(n);
    MovedFactor(s, Scale(FLOAT, e), Exp2(112), Scale(REBIASED, e));
  }

  lemma SameFields(n: nat)
    ensures ExponentField(REBIASED, n) == ExponentField(FLOAT, n)
    ensures Trailing(REBIASED, n) == Trailing(FLOAT, n) && Hidden(REBIASED) == Hidden(FLOAT)
  {
  }

  /** A half's magnitude, moved up by 13 bits, denotes the half in the rebiased format. */
  lemma MovedHalf(m: nat)
    ensures Value(REBIASED, m * 0x2000) == Value(HALF, m)
  {
    hide Exp2, ExponentField, Trailing, Value, Shr, Low;
    var e: int, t := ExponentField(HALF, m), Trailing(HALF, m);
    Decoded(HALF, m);
    HalfLayout();
    Pow2Table();
    Exp2OfNat(13);
    Exp2Sum(13, (if e == 0 then 1 else e) - 15 - 23);
    SameValue(HALF, REBIASED, e, t, e, t * 0x2000, 13);
    assert Encode(REBIASED, e, t * 0x2000) == m * 0x2000;
  }

  lemma ValueInjective(f: Format, i: nat, j: nat)
    requires Value(f, i) == Value(f, j)
    ensures i == j
  {
    hide Value;
    if i < j {
      ValueIncreases(f, i, j);
    } else if j < i {
      ValueIncreases(f, j, i);
    }
  }

  lemma MagicWidens(m: nat)
    requires m < 0x8000
    ensures TimesMagic(m * 0x2000) == WidenMag(HALF, FLOAT, m)
    ensures Value(FLOAT, TimesMagic(m * 0x2000)) == Value(HALF, m)
  {
    hide Value, TimesMagic, WidenMag;
    TimesMagicExact(m * 0x2000);
    MovedHalf(m);
    WidenMagExact(HALF, FLOAT, m);
    ValueInjective(FLOAT, TimesMagic(m * 0x2000), WidenMag(HALF, FLOAT, m));
  }

  /** The comparison with 65536 finds exactly the infinity and the NaNs. */
  lemma FromInfinityOn(m: nat)
    ensures Value(HALF, m) >= 65536.0 <==> m >= 0x7C00
  {
    hide Value;
    HalfLayout();
    HalfBeyond();
    assert Encode(HALF, 31, 0) == 0x7C00;
    if m < 0x7C00 {
      ValueIncreases(HALF, m, 0x7C00);
    } else if m > 0x7C00 {
      ValueIncreases(HALF, 0x7C00, m);
    }
  }

  lemma WidenedSpecial(m: nat)
    requires 0x7C00 <= m < 0x8000
    ensures WidenMag(HALF, FLOAT, m) == 143 * 0x80_0000 + (m - 0x7C00) * 0x2000
    ensures Or(WidenMag(HALF, FLOAT, m), Shl(0xFF, 23)) == 0x7F80_0000 + (m - 0x7C00) * 0x2000
  {
    hide Or, Shl, ExponentField, Trailing, Value, Pow2;
    HalfLayout();
    FloatLayout();
    Pow2Table();
    Encoded(HALF, 31, m - 0x7C00);
    assert Encode(HALF, 31, m - 0x7C00) == m;
    ShlIsMul(0xFF, 23);
    OrHigh(143, 0xFF, 23, (m - 0x7C00) * 0x2000);
    OrMask(143, 8);
  }

  /**
   For every half, infinities and NaN patterns included, the product of its moved bits and the magic number is a
   finite float, so a correctly rounding multiplication delivers it in every direction.
   */
  lemma MagicProductIsCorrectlyRounded(h: U16)
    ensures Multiplies(FLOAT, Magnitude(HALF, h) * 0x2000, MAGIC, TimesMagic(Magnitude(HALF, h) * 0x2000))
  {
    hide Exp2, Value, TimesMagic, Multiplies, WidenMag, Pow2, Or, Shl;
    var m := Magnitude(HALF, h);
    HalfLayout();
    FloatLayout();
    MagicWidens(m);
    if m < 0x7C00 {
      WidenMagFinite(HALF, FLOAT, m);
    } else {
      WidenedSpecial(m);
    }
    PowerValue(FLOAT, 0xEF);
    TimesMagicExact(m * 0x2000);
    ExactProduct(FLOAT, m * 0x2000, MAGIC, TimesMagic(m * 0x2000));
  }

  method HalfToFloatSlow(val: U16) returns (f: U32)
    ensures !IsNaN(HALF, val) ==> f == Widen(HALF, FLOAT, val)
    ensures IsNaN(HALF, val) ==> f == Pack(FLOAT, Negative(HALF, val),
                                    0x7F80_0000 + Trailing(HALF, Magnitude(HALF, val)) * 0x2000)
  {
    hide And, Or, Shl, Shr, Low, Pow2, Hidden, WidenMag, TimesMagic, Value, Pack, ExponentField, Trailing,
         Multiplies;
    ghost var m := Magnitude(HALF, val);
    HalfWordParts(val);
    MagicWidens(m);
    FromInfinityOn(m);
    HalfMagnitudes(val);
    var ui := ToU32(Shl(And(val, 0x7FFF), 13));
    MagicProductIsCorrectlyRounded(val);
    assert Multiplies(FLOAT, ui, MAGIC, TimesMagic(ui));
    ui := TimesMagic(ui);
    if Value(FLOAT, ui) >= 65536.0 {
      WidenedSpecial(m);
      ui := Or(ui, Shl(0xFF, 23));
    } else {
      WidenMagFinite(HALF, FLOAT, m);
    }
    SignPlaced(val, ui);
    f := Or(ui, ToU32(Shl(And(val, 0x8000), 16)));
  }

  lemma HalfWordParts(h: U16)
    ensures And(h, 0x7FFF) == Magnitude(HALF, h) < 0x8000
    ensures ToU32(Shl(And(h, 0x7FFF), 13)) == Magnitude(HALF, h) * 0x2000
    ensures And(h, 0x8000) == if Negative(HALF, h) then 0x8000 else 0
  {
    hide And, Shl, Shr, Low;
    HalfLayout();
    Pow2Table();
    AndMask(h, 15);
    AndBit(h, 15);
    SplitUnique(h, 15, if Negative(HALF, h) then 1 else 0, Magnitude(HALF, h));
    ShlIsMul(Magnitude(HALF, h), 13);
  }

  lemma HalfMagnitudes(h: U16)
    ensures IsPattern(HALF, h) && InfMag(HALF) == 0x7C00 && InfMag(FLOAT) == 0x7F80_0000
    ensures Magnitude(HALF, h) >= 0x7C00 ==> Trailing(HALF, Magnitude(HALF, h)) == Magnitude(HALF, h) - 0x7C00
  {
    hide Trailing, ExponentField;
    HalfLayout();
    FloatLayout();
    if Magnitude(HALF, h) >= 0x7C00 {
      SpecialFields(HALF, h);
    }
  }

  lemma SignPlaced(h: U16, x: nat)
    requires x < 0x8000_0000
    ensures Or(x, ToU32(Shl(And(h, 0x8000), 16))) == Pack(FLOAT, Negative(HALF, h), x) < 0x1_0000_0000
  {
    hide And, Or, Shl, Pow2;
    FloatLayout();
    Pow2Table();
    HalfWordParts(h);
    var sign := if Negative(HALF, h) then 1 else 0;
    ShlIsMul(And(h, 0x8000), 16);
    OrHigh(0, sign, 31, x);
    OrZero(sign);
  }

  // ----- util_nextafter16 -----

  predicate Lt(a: Extended, b: Extended) {
    Le(a, b) && a != b
  }

  /** The C comparison a < b of two floats: false when either is a NaN. */
  predicate FloatLess(a: U32, b: U32) {
    !IsNaN(FLOAT, a) && !IsNaN(FLOAT, b) && Lt(Meaning(FLOAT, a), Meaning(FLOAT, b))
  }

  /** The next number of a system in the given direction; a zero of either sign steps to the smallest magnitude. */
  function Neighbour(g: Grid, n: Num, up: bool): Num {
    if n.mag == 0 then Num(!up, 1)
    else if n.neg == up then Num(n.neg, n.mag - 1)
    else if n.mag == g.inf then n
    else Num(n.neg, n.mag + 1)
  }

  /** c lies strictly between the two numbers. */
  predicate Between(g: Grid, lo: Num, c: Num, hi: Num) {
    Lt(ValueOf(g, lo), ValueOf(g, c)) && Lt(ValueOf(g, c), ValueOf(g, hi))
  }

  /** The neighbour lies strictly beyond, and nothing lies between; only the last infinity has no neighbour. */
  lemma NeighbourIsAdjacent(g: Grid, n: Num, up: bool)
    requires g.Valid() && IsNum(g, n) && g.inf > 1
    ensures var r, last := Neighbour(g, n, up), if up then PosInf else NegInf;
            && IsNum(g, r)
            && (ValueOf(g, n) == last ==> r == n)
            && (ValueOf(g, n) != last ==>
                  if up then Lt(ValueOf(g, n), ValueOf(g, r)) else Lt(ValueOf(g, r), ValueOf(g, n)))
            && (forall c: Num :: IsNum(g, c) ==> if up then !Between(g, n, c, r) else !Between(g, r, c, n))
  {
    var r := Neighbour(g, n, up);
    Ascending(g, 0, 1);
    Ascending(g, n.mag, r.mag);
    Ascending(g, r.mag, n.mag);
    forall c: Num | IsNum(g, c)
      ensures if up then !Between(g, n, c, r) else !Between(g, r, c, n)
    {
      if up {
        NothingBetweenUp(g, n, c);
      } else {
        NothingBetweenDown(g, n, c);
      }
    }
  }

  lemma NothingBetweenUp(g: Grid, n: Num, c: Num)
    requires g.Valid() && IsNum(g, n) && IsNum(g, c)
    ensures !Between(g, n, c, Neighbour(g, n, true))
  {
    var r := Neighbour(g, n, true);
    Ascending(g, 0, c.mag);
    Ascending(g, 0, n.mag);
    if c.neg {
      Ascending(g, n.mag, c.mag);
      Ascending(g, c.mag, r.mag);
    } else {
      Ascending(g, c.mag, n.mag);
      Ascending(g, r.mag, c.mag);
    }
  }

  lemma NothingBetweenDown(g: Grid, n: Num, c: Num)
    requires g.Valid() && IsNum(g, n) && IsNum(g, c)
    ensures !Between(g, Neighbour(g, n, false), c, n)
  {
    var r := Neighbour(g, n, false);
    Ascending(g, 0, c.mag);
    Ascending(g, 0, n.mag);
    if c.neg {
      Ascending(g, c.mag, n.mag);
      Ascending(g, r.mag, c.mag);
    } else {
      Ascending(g, n.mag, c.mag);
      Ascending(g, c.mag, r.mag);
    }
  }

  method NextAfter16(x: U16, up: bool) returns (r: U16)
    ensures IsNaN(HALF, x) ==> r == x
    ensures !IsNaN(HALF, x) ==> IsPattern(HALF, r) && NumOf(HALF, r) == Neighbour(GridOf(HALF), NumOf(HALF, x), up)
  {
    hide Widen, Pack, Neighbour, Magnitude, Negative, Trailing, IsNaN, IsPattern;
    var f := HalfToFloatSlow(x);
    WidenedKind(x, f);
    NeighbourWord(x, up);
    if IsNaN(FLOAT, f) || (f == 0x7F80_0000 && up) || (f == 0xFF80_0000 && !up) {
      return x;
    }
    var isZero := f == 0 || f == 0x8000_0000;
    var xn := if isZero then 0x8001 else ToU16(x as int - 1);
    var xp := if isZero then 1 else ToU16(x + 1);
    var negative := !isZero && f >= 0x8000_0000;
    r := if up != negative then xp else xn;
  }

  /** The neighbouring half is one away on the integer value. */
  lemma NeighbourWord(x: U16, up: bool)
    ensures Magnitude(HALF, x) == if x < 0x8000 then x else x - 0x8000
    ensures !IsNaN(HALF, x) ==> x < 0xFFFF
    ensures !IsNaN(HALF, x) ==>
            var r := if x == 0 || x == 0x8000 then (if up then 1 else 0x8001)
                     else if x == (if up then 0x7C00 else 0xFC00) then x
                     else if up == (x < 0x8000) then x + 1 else x - 1;
            IsPattern(HALF, r) && NumOf(HALF, r) == Neighbour(GridOf(HALF), NumOf(HALF, x), up)
  {
    hide Value;
    HalfLayout();
  }

  /** Sign, zero, infinity and NaN of a half can be read off its widened float. */
  lemma WidenedKind(x: U16, f: U32)
    requires !IsNaN(HALF, x) ==> f == Widen(HALF, FLOAT, x)
    requires IsNaN(HALF, x) ==> f == Pack(FLOAT, Negative(HALF, x),
                                   0x7F80_0000 + Trailing(HALF, Magnitude(HALF, x)) * 0x2000)
    ensures IsNaN(FLOAT, f) <==> IsNaN(HALF, x)
    ensures !IsNaN(HALF, x) ==>
            && (f >= 0x8000_0000 <==> x >= 0x8000)
            && (f == 0 || f == 0x8000_0000 <==> Magnitude(HALF, x) == 0)
            && (f == 0x7F80_0000 <==> x == 0x7C00) && (f == 0xFF80_0000 <==> x == 0xFC00)
  {
    hide WidenMag, Trailing, ExponentField, Value;
    HalfLayout();
    FloatLayout();
    var m := Magnitude(HALF, x);
    HalfMagnitudes(x);
    if m < 0x7C00 {
      WidenMagFinite(HALF, FLOAT, m);
      WidenMagExact(HALF, FLOAT, m);
      ValueNonnegative(HALF, m);
      ValueNonnegative(FLOAT, WidenMag(HALF, FLOAT, m));
    }
  }

  // ----- _mesa_float_to_float16_ru, _mesa_float_to_float16_rd -----

  /** Round to nearest, and step up if that fell below: the rounding toward positive infinity. */
  lemma NearestThenUp(g: Grid, neg: bool, x: real)
    requires g.Valid() && SignFits(neg, x)
    ensures var n := Round(g, RTE, neg, x);
            Round(g, RTP, neg, x) == if Lt(ValueOf(g, n), Fin(x)) then Neighbour(g, n, true) else n
  {
    var k := RoundFloor(g, RTE, neg, x);
    RoundIsStepped(g, RTP, neg, x, k);
    Ascending(g, 0, k);
    Ascending(g, k, k + 1);
  }

  /** Round to nearest, and step down if that fell above: the rounding toward negative infinity. */
  lemma NearestThenDown(g: Grid, neg: bool, x: real)
    requires g.Valid() && SignFits(neg, x)
    ensures var n := Round(g, RTE, neg, x);
            Round(g, RTN, neg, x) == if Lt(Fin(x), ValueOf(g, n)) then Neighbour(g, n, false) else n
  {
    var k := RoundFloor(g, RTE, neg, x);
    RoundIsStepped(g, RTN, neg, x, k);
    Ascending(g, 0, k);
    Ascending(g, k, k + 1);
  }

  /** What the nearest half of a float says about its directed roundings. */
  lemma DirectedFromNearest(val: U32, half: U16)
    requires !IsNaN(FLOAT, val) && half == Convert(FLOAT, HALF, RTE, val)
    ensures IsPattern(FLOAT, val) && IsPattern(HALF, half) && !IsNaN(HALF, half)
    ensures NumOf(HALF, Convert(FLOAT, HALF, RTP, val)) ==
            if Lt(Meaning(HALF, half), Meaning(FLOAT, val)) then Neighbour(GridOf(HALF), NumOf(HALF, half), true)
            else NumOf(HALF, half)
    ensures NumOf(HALF, Convert(FLOAT, HALF, RTN, val)) ==
            if Lt(Meaning(FLOAT, val), Meaning(HALF, half)) then Neighbour(GridOf(HALF), NumOf(HALF, half), false)
            else NumOf(HALF, half)
  {
    hide Value, Convert, NarrowMag, Neighbour;
    FloatLayout();
    ConvertKeepsSign(FLOAT, HALF, RTE, val);
    if IsFinite(FLOAT, val) {
      ConvertMeaning(FLOAT, HALF, RTE, val);
      ConvertMeaning(FLOAT, HALF, RTP, val);
      ConvertMeaning(FLOAT, HALF, RTN, val);
      RoundIsRounding(GridOf(HALF), RTE, Negative(FLOAT, val), SignedValue(FLOAT, val));
      NearestThenUp(GridOf(HALF), Negative(FLOAT, val), SignedValue(FLOAT, val));
      NearestThenDown(GridOf(HALF), Negative(FLOAT, val), SignedValue(FLOAT, val));
    } else {
      InfinityStays(val, RTE);
      InfinityStays(val, RTP);
      InfinityStays(val, RTN);
    }
  }

  lemma InfinityStays(val: U32, mode: Mode)
    requires IsInfinite(FLOAT, val)
    ensures NumOf(HALF, Convert(FLOAT, HALF, mode, val)) == Num(Negative(FLOAT, val), InfMag(HALF))
    ensures Meaning(HALF, Convert(FLOAT, HALF, mode, val)) == Meaning(FLOAT, val)
  {
    hide Value, Convert, NarrowMag;
    FloatLayout();
    ConvertKeepsSign(FLOAT, HALF, mode, val);
    ConvertOfSpecial(FLOAT, HALF, mode, val);
  }

  lemma SamePattern(f: Format, a: nat, b: nat)
    requires NumOf(f, a) == NumOf(f, b)
    ensures a == b
  {
    Unpacked(f, a);
    Unpacked(f, b);
  }

  method FloatToFloat16Ru(val: U32) returns (r: U16)
    ensures !IsNaN(FLOAT, val) ==> r == Convert(FLOAT, HALF, RTP, val)
    ensures IsNaN(FLOAT, val) ==> r == Pack(HALF, Negative(FLOAT, val),
                                    InfMag(HALF) + KeptPayload(Trailing(FLOAT, Magnitude(FLOAT, val))))
  {
    hide Value, Convert, Neighbour, Meaning, Widen, Magnitude, Negative, KeptPayload;
    var half := FloatToHalfSlow(val);
    var back := HalfToFloatSlow(half);
    ComparesAsHalf(val, half, back);
    r := half;
    if FloatLess(back, val) {
      r := NextAfter16(half, true);
    }
    if !IsNaN(FLOAT, val) {
      DirectedFromNearest(val, half);
      SamePattern(HALF, r, Convert(FLOAT, HALF, RTP, val));
    }
  }

  method FloatToFloat16Rd(val: U32) returns (r: U16)
    ensures !IsNaN(FLOAT, val) ==> r == Convert(FLOAT, HALF, RTN, val)
    ensures IsNaN(FLOAT, val) ==> r == Pack(HALF, Negative(FLOAT, val),
                                    InfMag(HALF) + KeptPayload(Trailing(FLOAT, Magnitude(FLOAT, val))))
  {
    hide Value, Convert, Neighbour, Meaning, Widen, Magnitude, Negative, KeptPayload;
    var half := FloatToHalfSlow(val);
    var back := HalfToFloatSlow(half);
    ComparesAsHalf(val, half, back);
    r := half;
    if FloatLess(val, back) {
      r := NextAfter16(half, false);
    }
    if !IsNaN(FLOAT, val) {
      DirectedFromNearest(val, half);
      SamePattern(HALF, r, Convert(FLOAT, HALF, RTN, val));
    }
  }

  /** Comparing the widened half with the float compares the half itself. */
  lemma ComparesAsHalf(val: U32, half: U16, back: U32)
    requires !IsNaN(FLOAT, val) ==> half == Convert(FLOAT, HALF, RTE, val)
    requires IsNaN(FLOAT, val) ==> half == Pack(HALF, Negative(FLOAT, val),
                                     InfMag(HALF) + KeptPayload(Trailing(FLOAT, Magnitude(FLOAT, val))))
    requires !IsNaN(HALF, half) ==> back == Widen(HALF, FLOAT, half)
    ensures IsNaN(FLOAT, val) ==> IsNaN(HALF, half)
    ensures !IsNaN(FLOAT, val) ==>
            !IsNaN(HALF, half) && !IsNaN(FLOAT, back) && Meaning(FLOAT, back) == Meaning(HALF, half)
  {
    hide Value, Convert, Widen, Trailing, ExponentField, Shr;
    HalfLayout();
    FloatLayout();
    if IsNaN(FLOAT, val) {
      Decoded(FLOAT, Magnitude(FLOAT, val));
      FloatPayload(Trailing(FLOAT, Magnitude(FLOAT, val)));
    } else {
      DirectedFromNearest(val, half);
      WidenMeaning(HALF, FLOAT, half);
    }
  }
}
