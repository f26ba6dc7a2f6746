/**
 Binary interchange formats (section 3.4 of IEEE 754-2019), for any precision and exponent bias.

 A datum is a bit pattern: one sign bit, the biased exponent, and precision - 1 trailing significand bits. The bits
 below the sign, read as one integer, are its magnitude; finite magnitudes ascend with that integer.
 */
module Formats {
  import opened Bits
  import opened Powers
  import opened Rounding

  datatype Parameters = Format(precision: nat, bias: nat)

  type Format = f: Parameters | f.precision >= 3 && f.bias >= 1 witness Format(11, 15)

  const HALF: Format := Format(11, 15)
  const FLOAT: Format := Format(24, 127)
  const DOUBLE: Format := Format(53, 1023)

  /** Weight of the implicit leading bit: one more than the largest trailing significand. */
  function Hidden(f: Format): (h: nat)
    ensures h > 1 && h % 2 == 0
  {
    Pow2(f.precision - 1)
  }

  /** Exponent field all ones, significand zero. */
  function InfMag(f: Format): nat {
    (2 * f.bias + 1) * Hidden(f)
  }

  function SignBit(f: Format): nat {
    (2 * f.bias + 2) * Hidden(f)
  }

  predicate IsPattern(f: Format, b: nat) {
    b < 2 * SignBit(f)
  }

  predicate Negative(f: Format, b: nat) {
    b >= SignBit(f)
  }

  function Magnitude(f: Format, b: nat): nat {
    if b < SignBit(f) then b else b - SignBit(f)
  }

  function Pack(f: Format, neg: bool, mag: nat): nat {
    if neg then SignBit(f) + mag else mag
  }

  predicate IsNaN(f: Format, b: nat) { Magnitude(f, b) > InfMag(f) }
  predicate IsInfinite(f: Format, b: nat) { Magnitude(f, b) == InfMag(f) }
  predicate IsFinite(f: Format, b: nat) { Magnitude(f, b) < InfMag(f) }

  function ExponentField(f: Format, n: nat): nat {
    Shr(n, f.precision - 1)
  }

  function Trailing(f: Format, n: nat): nat {
    Low(n, f.precision - 1)
  }

  /** The unit in the last place for exponent field e; the all-zero field shares the scale of field one. */
  function Scale(f: Format, e: nat): real {
    Exp2((if e == 0 then 1 else e) - f.bias - (f.precision - 1))
  }

  function Significand(f: Format, e: nat, t: nat): nat {
    if e == 0 then t else Hidden(f) + t
  }

  /** The exact value of magnitude n. From InfMag on it continues as if the exponent range went on. */
  function Value(f: Format, n: nat): real {
    Significand(f, ExponentField(f, n), Trailing(f, n)) as real * Scale(f, ExponentField(f, n))
  }

  function SignedValue(f: Format, b: nat): real {
    Signed(Negative(f, b), Value(f, Magnitude(f, b)))
  }

  function GridOf(f: Format): Grid {
    Grid((n: nat) => Value(f, n), InfMag(f))
  }

  function NumOf(f: Format, b: nat): Num {
    Num(Negative(f, b), Magnitude(f, b))
  }

  /** The value of a pattern that is not a NaN, infinities included. */
  function Meaning(f: Format, b: nat): Extended {
    ValueOf(GridOf(f), NumOf(f, b))
  }

  // ----- The magnitudes ascend -----

  /** The magnitude with exponent field e and trailing significand t. */
  function Encode(f: Format, e: nat, t: nat): nat {
    e * Hidden(f) + t
  }

  lemma Decoded(f: Format, n: nat)
    ensures n == Encode(f, ExponentField(f, n), Trailing(f, n))
    ensures Trailing(f, n) < Hidden(f)
  {
    Split(n, f.precision - 1);
  }

  lemma Encoded(f: Format, e: nat, t: nat)
    requires t < Hidden(f)
    ensures ExponentField(f, Encode(f, e, t)) == e
    ensures Trailing(f, Encode(f, e, t)) == t
    ensures Value(f, Encode(f, e, t)) == Significand(f, e, t) as real * Scale(f, e)
  {
    SplitUnique(Encode(f, e, t), f.precision - 1, e, t);
  }

  lemma ValueStep(f: Format, n: nat)
    ensures Value(f, n + 1) == Value(f, n) + Scale(f, ExponentField(f, n))
  {
    var e, t := ExponentField(f, n), Trailing(f, n);
    Decoded(f, n);
    if t + 1 < Hidden(f) {
      assert n + 1 == Encode(f, e, t + 1);
      StepWithin(f, e, t);
    } else {
      assert n + 1 == Encode(f, e + 1, 0);
      StepAcross(f, e);
    }
  }

  lemma EncodedProduct(f: Format, e: nat, t: nat)
    requires t < Hidden(f)
    ensures IsProduct(Value(f, Encode(f, e, t)), Significand(f, e, t) as real, Scale(f, e))
  {
    Encoded(f, e, t);
  }

  lemma StepWithin(f: Format, e: nat, t: nat)
    requires t + 1 < Hidden(f)
    ensures Value(f, Encode(f, e, t + 1)) == Value(f, Encode(f, e, t)) + Scale(f, e)
  {
    hide Value, Scale, Encode, Hidden;
    EncodedProduct(f, e, t);
    EncodedProduct(f, e, t + 1);
    OneMore(Significand(f, e, t), Scale(f, e), Value(f, Encode(f, e, t)), Value(f, Encode(f, e, t + 1)));
  }

  lemma StepAcross(f: Format, e: nat)
    ensures Value(f, Encode(f, e + 1, 0)) == Value(f, Encode(f, e, Hidden(f) - 1)) + Scale(f, e)
  {
    hide Value, Encode, Hidden, Exp2;
    var x, y := Value(f, Encode(f, e, Hidden(f) - 1)), Value(f, Encode(f, e + 1, 0));
    EncodedProduct(f, e, Hidden(f) - 1);
    EncodedProduct(f, e + 1, 0);
    if e == 0 {
      OneMore(Hidden(f) - 1, Scale(f, e), x, y);
    } else {
      Exp2Succ(e - f.bias - (f.precision - 1));
      NextBinade(Hidden(f), Scale(f, e), x, y);
    }
  }

  lemma OneMore(s: nat, u: real, x: real, y: real)
    requires IsProduct(x, s as real, u) && IsProduct(y, (s + 1) as real, u)
    ensures y == x + u
  {
  }

  lemma NextBinade(h: nat, u: real, x: real, y: real)
    requires h > 0 && IsProduct(x, (h + (h - 1)) as real, u) && IsProduct(y, h as real, 2.0 * u)
    ensures y == x + u
  {
  }

  lemma {:induction false} ValueIncreases(f: Format, i: nat, j: nat)
    requires i < j
    ensures Value(f, i) < Value(f, j)
    decreases j
  {
    ValueStep(f, j - 1);
    if i < j - 1 {
      ValueIncreases(f, i, j - 1);
    }
  }

  lemma Evenness(f: Format, e: nat, t: nat)
    ensures Encode(f, e, t) % 2 == t % 2
  {
    var half := Pow2(f.precision - 2);
    assert Encode(f, e, t) == 2 * (e * half) + t by {
      assert Hidden(f) == 2 * half;
      Reassociate(e, half);
    }
  }

  lemma Reassociate(e: nat, half: nat)
    ensures e * (2 * half) == 2 * (e * half)
  {
  }

  lemma GridValid(f: Format)
    ensures GridOf(f).Valid()
  {
    var g := GridOf(f);
    Evenness(f, 2 * f.bias + 1, 0);
    assert g.inf > 0;
    Encoded(f, 0, 0);
    assert g.v(0) == 0.0;
    forall i: nat, j: nat | i < j
      ensures g.v(i) < g.v(j)
    {
      ValueIncreases(f, i, j);
    }
  }

  // ----- Powers of two among the values -----

  lemma PowerValue(f: Format, e: nat)
    requires e > 0
    ensures Value(f, Encode(f, e, 0)) == Exp2(e - f.bias)
  {
    Encoded(f, e, 0);
    Exp2OfNat(f.precision - 1);
    Exp2Sum(f.precision - 1, e - f.bias - (f.precision - 1));
  }

  /** A magnitude with exponent field e lies in the binade of e. */
  lemma InBinade(f: Format, n: nat)
    ensures var e := ExponentField(f, n);
            && Value(f, n) < Exp2((if e == 0 then 1 else e + 1) - f.bias)
            && (e > 0 ==> Exp2(e - f.bias) <= Value(f, n))
  {
    var e := ExponentField(f, n);
    Decoded(f, n);
    PowerValue(f, e + 1);
    NextMultiple(e, Hidden(f));
    ValueIncreases(f, n, Encode(f, e + 1, 0));
    if e > 0 {
      PowerValue(f, e);
      if Encode(f, e, 0) < n {
        ValueIncreases(f, Encode(f, e, 0), n);
      }
    }
  }

  lemma NextMultiple(e: nat, h: nat)
    ensures (e + 1) * h == e * h + h
  {
  }

  // ----- Signs and patterns -----

  lemma SignBitAboveInf(f: Format)
    ensures SignBit(f) == InfMag(f) + Hidden(f)
  {
    NextMultiple(2 * f.bias + 1, Hidden(f));
  }

  lemma Packed(f: Format, neg: bool, mag: nat)
    requires mag < SignBit(f)
    ensures IsPattern(f, Pack(f, neg, mag))
    ensures Negative(f, Pack(f, neg, mag)) == neg && Magnitude(f, Pack(f, neg, mag)) == mag
  {
  }

  lemma Unpacked(f: Format, b: nat)
    ensures b == Pack(f, Negative(f, b), Magnitude(f, b))
    ensures IsPattern(f, b) ==> Magnitude(f, b) < SignBit(f)
  {
  }

  lemma ValueNonnegative(f: Format, n: nat)
    ensures Value(f, n) >= 0.0
    ensures Value(f, n) == 0.0 <==> n == 0
  {
    Encoded(f, 0, 0);
    if n > 0 {
      ValueIncreases(f, 0, n);
    }
  }

  // ----- Correct rounding to a format -----

  /** The bit pattern that section 4.3 of IEEE 754-2019 prescribes for the exact number x with sign neg. */
  ghost function Rounded(f: Format, mode: Mode, neg: bool, x: real): nat
    requires SignFits(neg, x)
  {
    GridValid(f);
    Pack(f, neg, Round(GridOf(f), mode, neg, x).mag)
  }

  lemma RoundedIsRounding(f: Format, mode: Mode, neg: bool, x: real)
    requires SignFits(neg, x)
    ensures GridOf(f).Valid()
    ensures var b := Rounded(f, mode, neg, x);
            IsPattern(f, b) && !IsNaN(f, b) && IsRounding(GridOf(f), mode, neg, x, NumOf(f, b))
  {
    GridValid(f);
    SignBitAboveInf(f);
    RoundIsRounding(GridOf(f), mode, neg, x);
    Packed(f, neg, Round(GridOf(f), mode, neg, x).mag);
  }

  /** A finite datum rounds to itself. */
  lemma RoundedOfDatum(f: Format, mode: Mode, neg: bool, n: nat)
    requires n < InfMag(f)
    ensures SignFits(neg, Signed(neg, Value(f, n)))
    ensures Rounded(f, mode, neg, Signed(neg, Value(f, n))) == Pack(f, neg, n)
  {
    hide Value;
    GridValid(f);
    RoundOfNumber(GridOf(f), mode, Num(neg, n), Signed(neg, Value(f, n)));
  }

  /** In every direction, a correctly rounding operation whose exact result is x >= 0 delivers the finite datum n. */
  ghost predicate Delivers(f: Format, x: real, n: nat) {
    n < InfMag(f) && SignFits(false, x) && forall mode :: Rounded(f, mode, false, x) == n
  }

  function Product(x: real, y: real): real {
    x * y
  }

  /** A correctly rounding multiplication of the finite magnitudes a and b delivers n. */
  ghost predicate Multiplies(f: Format, a: nat, b: nat, n: nat) {
    a < InfMag(f) && b < InfMag(f) && Delivers(f, Product(Value(f, a), Value(f, b)), n)
  }

  lemma ExactProduct(f: Format, a: nat, b: nat, n: nat)
    requires a < InfMag(f) && b < InfMag(f) && n < InfMag(f) && IsProduct(Value(f, n), Value(f, a), Value(f, b))
    ensures Multiplies(f, a, b, n)
  {
    hide Value, InfMag, Delivers;
    DeliversDatum(f, n);
  }

  lemma DeliversDatum(f: Format, n: nat)
    requires n < InfMag(f)
    ensures Delivers(f, Value(f, n), n)
  {
    hide Value, Rounded, InfMag;
    RoundedOfDatum(f, RTE, false, n);
    forall mode
      ensures Rounded(f, mode, false, Value(f, n)) == n
    {
      RoundedOfDatum(f, mode, false, n);
    }
  }
}
