/**
 Rounding of an exact real number to a number system, in the words of sections 4.3.1 and 4.3.2 of IEEE 754-2019.

 A number system is given by the ascending list of its finite magnitudes. The rules below say which number each
 rounding direction demands; they do not say how to find it. The lemmas show that there is always exactly one such
 number, and what follows from the rules alone: order, symmetry, bracketing, thresholds.
 */
module Rounding {

  /** CL_HALF_RTE, CL_HALF_RTZ, CL_HALF_RTP, CL_HALF_RTN. */
  datatype Mode = RTE | RTZ | RTP | RTN

  /** v(0), .., v(inf - 1) are the finite magnitudes; v(inf) is the magnitude that would come next. */
  datatype Grid = Grid(v: nat -> real, inf: nat) {
    ghost predicate Valid() {
      && inf > 0 && inf % 2 == 0
      && v(0) == 0.0
      && forall i: nat, j: nat :: i < j ==> v(i) < v(j)
    }
  }

  /** A number of the system: a sign and the index of a magnitude, `inf` standing for infinity. */
  datatype Num = Num(neg: bool, mag: nat)

  datatype Extended = NegInf | Fin(r: real) | PosInf

  predicate Le(a: Extended, b: Extended) {
    match (a, b)
    case (NegInf, _) => true
    case (_, PosInf) => true
    case (Fin(x), Fin(y)) => x <= y
    case _ => false
  }

  predicate IsNum(g: Grid, n: Num) {
    n.mag <= g.inf
  }

  function Signed(neg: bool, a: real): real {
    if neg then -a else a
  }

  function Abs(x: real): real {
    if x < 0.0 then -x else x
  }

  function ValueOf(g: Grid, n: Num): Extended {
    if n.mag < g.inf then Fin(Signed(n.neg, g.v(n.mag)))
    else if n.neg then NegInf else PosInf
  }

  /** The sign bit of the operand agrees with its value; a zero may carry either sign. */
  predicate SignFits(neg: bool, x: real) {
    if neg then x <= 0.0 else x >= 0.0
  }

  // ----- What IEEE 754-2019 demands -----

  /** The magnitude from which round-to-nearest overflows: midway between the last finite magnitude and the next. */
  function Threshold(g: Grid): real
    requires g.inf > 0
  {
    (g.v(g.inf - 1) + g.v(g.inf)) / 2.0
  }

  function Distance(g: Grid, n: Num, x: real): real {
    Abs(Signed(n.neg, g.v(n.mag)) - x)
  }

  /** Section 4.3.1, roundTiesToEven. */
  ghost predicate NearestEven(g: Grid, x: real, n: Num)
    requires g.Valid()
  {
    if Abs(x) >= Threshold(g) then n.mag == g.inf
    else
      && n.mag < g.inf
      && (forall c: Num :: c.mag < g.inf ==> Distance(g, n, x) <= Distance(g, c, x))
      && (forall c: Num :: c.mag < g.inf && ValueOf(g, c) != ValueOf(g, n) && Distance(g, c, x) == Distance(g, n, x)
            ==> n.mag % 2 == 0)
  }

  /** Section 4.3.2, roundTowardZero: closest to and no greater in magnitude than x. */
  ghost predicate TowardZero(g: Grid, x: real, n: Num) {
    && n.mag < g.inf
    && g.v(n.mag) <= Abs(x)
    && (forall k: nat :: k < g.inf && g.v(k) <= Abs(x) ==> g.v(k) <= g.v(n.mag))
  }

  /** Section 4.3.2, roundTowardPositive: closest to and no less than x, possibly +infinity. */
  ghost predicate TowardPositive(g: Grid, x: real, n: Num) {
    && Le(Fin(x), ValueOf(g, n))
    && (forall c: Num :: IsNum(g, c) && Le(Fin(x), ValueOf(g, c)) ==> Le(ValueOf(g, n), ValueOf(g, c)))
  }

  /** Section 4.3.2, roundTowardNegative: closest to and no greater than x, possibly -infinity. */
  ghost predicate TowardNegative(g: Grid, x: real, n: Num) {
    && Le(ValueOf(g, n), Fin(x))
    && (forall c: Num :: IsNum(g, c) && Le(ValueOf(g, c), Fin(x)) ==> Le(ValueOf(g, c), ValueOf(g, n)))
  }

  /** n is the number the direction demands for x; a conversion keeps the operand's sign (section 6.3). */
  ghost predicate IsRounding(g: Grid, mode: Mode, neg: bool, x: real, n: Num)
    requires g.Valid()
  {
    && IsNum(g, n)
    && n.neg == neg
    && match mode
       case RTE => NearestEven(g, x, n)
       case RTZ => TowardZero(g, x, n)
       case RTP => TowardPositive(g, x, n)
       case RTN => TowardNegative(g, x, n)
  }

  // ----- Truncate, then perhaps step to the successor -----

  /** k is the largest finite magnitude that does not exceed a. */
  ghost predicate Floor(g: Grid, k: nat, a: real) {
    k < g.inf && g.v(k) <= a && (k + 1 < g.inf ==> a < g.v(k + 1))
  }

  /** Whether the direction moves from the truncated magnitude k to its successor k + 1. */
  predicate StepsUp(g: Grid, mode: Mode, neg: bool, k: nat, a: real) {
    match mode
    case RTE =>
      var below, above := a - g.v(k), g.v(k + 1) - a;
      below > above || (below == above && k % 2 == 1)
    case RTZ => false
    case RTP => !neg && a > g.v(k)
    case RTN => neg && a > g.v(k)
  }

  function Stepped(g: Grid, mode: Mode, neg: bool, k: nat, a: real): Num {
    Num(neg, if StepsUp(g, mode, neg, k, a) then k + 1 else k)
  }

  lemma {:induction false} FloorExists(g: Grid, a: real, top: nat) returns (k: nat)
    requires g.Valid() && a >= 0.0
    requires top < g.inf
    requires top + 1 < g.inf ==> a < g.v(top + 1)
    ensures Floor(g, k, a)
  {
    if g.v(top) <= a {
      k := top;
    } else {
      k := FloorExists(g, a, top - 1);
    }
  }

  lemma FloorUnique(g: Grid, j: nat, k: nat, a: real)
    requires g.Valid() && Floor(g, j, a) && Floor(g, k, a)
    ensures j == k
  {
    Ascending(g, j + 1, k);
    Ascending(g, k + 1, j);
  }

  lemma Ascending(g: Grid, i: nat, j: nat)
    requires g.Valid()
    ensures i < j ==> g.v(i) < g.v(j)
    ensures i <= j ==> g.v(i) <= g.v(j)
    ensures i != j ==> g.v(i) != g.v(j)
    ensures 0.0 <= g.v(i)
  {
  }

  /** Truncating and stepping meets every rule: the step-by-step form refines the declarative one. */
  lemma SteppedIsRounding(g: Grid, mode: Mode, neg: bool, x: real, k: nat)
    requires g.Valid() && SignFits(neg, x) && Floor(g, k, Abs(x))
    ensures IsRounding(g, mode, neg, x, Stepped(g, mode, neg, k, Abs(x)))
  {
    match mode
    case RTE => SteppedIsNearest(g, neg, x, k);
    case RTZ => SteppedIsTowardZero(g, neg, x, k);
    case RTP => SteppedIsTowardPositive(g, neg, x, k);
    case RTN => SteppedIsTowardNegative(g, neg, x, k);
  }

  lemma SteppedIsTowardZero(g: Grid, neg: bool, x: real, k: nat)
    requires g.Valid() && SignFits(neg, x) && Floor(g, k, Abs(x))
    ensures TowardZero(g, x, Num(neg, k))
  {
    forall j: nat | j < g.inf && g.v(j) <= Abs(x)
      ensures g.v(j) <= g.v(k)
    {
      Ascending(g, k + 1, j);
      Ascending(g, j, k);
    }
  }

  lemma SteppedIsTowardPositive(g: Grid, neg: bool, x: real, k: nat)
    requires g.Valid() && SignFits(neg, x) && Floor(g, k, Abs(x))
    ensures TowardPositive(g, x, Stepped(g, RTP, neg, k, Abs(x)))
  {
    var n := Stepped(g, RTP, neg, k, Abs(x));
    forall c: Num | IsNum(g, c) && Le(Fin(x), ValueOf(g, c))
      ensures Le(ValueOf(g, n), ValueOf(g, c))
    {
      Ascending(g, 0, c.mag);
      Ascending(g, k + 1, c.mag);
      Ascending(g, c.mag, k);
      Ascending(g, k, c.mag);
    }
  }

  lemma SteppedIsTowardNegative(g: Grid, neg: bool, x: real, k: nat)
    requires g.Valid() && SignFits(neg, x) && Floor(g, k, Abs(x))
    ensures TowardNegative(g, x, Stepped(g, RTN, neg, k, Abs(x)))
  {
    var n := Stepped(g, RTN, neg, k, Abs(x));
    forall c: Num | IsNum(g, c) && Le(ValueOf(g, c), Fin(x))
      ensures Le(ValueOf(g, c), ValueOf(g, n))
    {
      Ascending(g, 0, c.mag);
      Ascending(g, k + 1, c.mag);
      Ascending(g, c.mag, k);
      Ascending(g, k, c.mag);
    }
  }

  lemma SteppedIsNearest(g: Grid, neg: bool, x: real, k: nat)
    requires g.Valid() && SignFits(neg, x) && Floor(g, k, Abs(x))
    ensures NearestEven(g, x, Stepped(g, RTE, neg, k, Abs(x)))
  {
    var n := Stepped(g, RTE, neg, k, Abs(x));
    if Abs(x) >= Threshold(g) {
      Ascending(g, k + 1, g.inf);
      Ascending(g, g.inf - 1, g.inf);
      Ascending(g, k + 1, g.inf - 1);
    } else {
      Ascending(g, k, g.inf - 1);
      forall c: Num | c.mag < g.inf
        ensures Distance(g, n, x) <= Distance(g, c, x)
        ensures ValueOf(g, c) != ValueOf(g, n) && Distance(g, c, x) == Distance(g, n, x) ==> n.mag % 2 == 0
      {
        NearestAgainst(g, neg, x, k, c);
      }
    }
  }

  lemma NearestAgainst(g: Grid, neg: bool, x: real, k: nat, c: Num)
    requires g.Valid() && SignFits(neg, x) && Floor(g, k, Abs(x))
    requires c.mag < g.inf
    requires Abs(x) < Threshold(g)
    ensures var n := Stepped(g, RTE, neg, k, Abs(x));
            && n.mag < g.inf
            && Distance(g, n, x) <= Distance(g, c, x)
            && (ValueOf(g, c) != ValueOf(g, n) && Distance(g, c, x) == Distance(g, n, x) ==> n.mag % 2 == 0)
  {
    Ascending(g, k + 1, g.inf - 1);
    if c.neg == neg {
      NearestOnSameSide(g, neg, x, k, c);
    } else {
      NearestAcrossZero(g, neg, x, k, c);
    }
  }

  lemma NearestOnSameSide(g: Grid, neg: bool, x: real, k: nat, c: Num)
    requires g.Valid() && SignFits(neg, x) && Floor(g, k, Abs(x)) && c.neg == neg
    requires Stepped(g, RTE, neg, k, Abs(x)).mag < g.inf && c.mag < g.inf
    ensures var n := Stepped(g, RTE, neg, k, Abs(x));
            && Distance(g, n, x) <= Distance(g, c, x)
            && (ValueOf(g, c) != ValueOf(g, n) && Distance(g, c, x) == Distance(g, n, x) ==> n.mag % 2 == 0)
  {
    hide Distance;
    DistanceFromMagnitude(g, neg, x, Stepped(g, RTE, neg, k, Abs(x)));
    DistanceFromMagnitude(g, neg, x, c);
    if c.mag <= k {
      Ascending(g, c.mag, k);
    } else {
      Ascending(g, k + 1, c.mag);
    }
  }

  lemma NearestAcrossZero(g: Grid, neg: bool, x: real, k: nat, c: Num)
    requires g.Valid() && SignFits(neg, x) && Floor(g, k, Abs(x)) && c.neg != neg
    requires Stepped(g, RTE, neg, k, Abs(x)).mag < g.inf && c.mag < g.inf
    ensures var n := Stepped(g, RTE, neg, k, Abs(x));
            && Distance(g, n, x) <= Distance(g, c, x)
            && (ValueOf(g, c) != ValueOf(g, n) && Distance(g, c, x) == Distance(g, n, x) ==> n.mag % 2 == 0)
  {
    hide Distance;
    DistanceFromMagnitude(g, neg, x, Stepped(g, RTE, neg, k, Abs(x)));
    DistanceFromMagnitude(g, neg, x, c);
    Ascending(g, 0, c.mag);
    Ascending(g, 0, k);
  }

  lemma DistanceFromMagnitude(g: Grid, neg: bool, x: real, c: Num)
    requires g.Valid() && SignFits(neg, x)
    ensures Distance(g, c, x) == if c.neg == neg then Abs(g.v(c.mag) - Abs(x)) else g.v(c.mag) + Abs(x)
  {
    Ascending(g, 0, c.mag);
  }

  // ----- There is exactly one rounding -----

  lemma SameSignInjective(g: Grid, m: Num, n: Num)
    requires g.Valid() && IsNum(g, m) && IsNum(g, n)
    requires m.neg == n.neg && ValueOf(g, m) == ValueOf(g, n)
    ensures m == n
  {
    Ascending(g, m.mag, n.mag);
  }

  lemma RoundingUnique(g: Grid, mode: Mode, neg: bool, x: real, m: Num, n: Num)
    requires g.Valid() && SignFits(neg, x)
    requires IsRounding(g, mode, neg, x, m) && IsRounding(g, mode, neg, x, n)
    ensures m == n
  {
    match mode
    case RTE =>
      if Abs(x) < Threshold(g) {
        NearestUnique(g, neg, x, m, n);
      }
    case RTZ =>
      Ascending(g, m.mag, n.mag);
    case RTP =>
      assert Le(ValueOf(g, m), ValueOf(g, n)) && Le(ValueOf(g, n), ValueOf(g, m));
      SameSignInjective(g, m, n);
    case RTN =>
      assert Le(ValueOf(g, m), ValueOf(g, n)) && Le(ValueOf(g, n), ValueOf(g, m));
      SameSignInjective(g, m, n);
  }

  /** Two distinct nearest numbers would both be even, so a third one would lie strictly between them. */
  lemma NearestUnique(g: Grid, neg: bool, x: real, m: Num, n: Num)
    requires g.Valid() && SignFits(neg, x) && Abs(x) < Threshold(g)
    requires m.neg == neg && NearestEven(g, x, m)
    requires n.neg == neg && NearestEven(g, x, n)
    ensures m == n
  {
    assert Distance(g, m, x) == Distance(g, n, x);
    if m.mag < n.mag {
      CloserBetween(g, neg, x, m, n);
    } else if n.mag < m.mag {
      CloserBetween(g, neg, x, n, m);
    }
  }

  lemma CloserBetween(g: Grid, neg: bool, x: real, lo: Num, hi: Num)
    requires g.Valid() && SignFits(neg, x) && lo.neg == neg && hi.neg == neg && lo.mag < hi.mag < g.inf
    requires Distance(g, lo, x) == Distance(g, hi, x)
    ensures ValueOf(g, lo) != ValueOf(g, hi)
    ensures lo.mag + 1 < hi.mag ==> Distance(g, Num(neg, lo.mag + 1), x) < Distance(g, lo, x)
  {
    hide Distance;
    Ascending(g, lo.mag, hi.mag);
    Ascending(g, lo.mag, lo.mag + 1);
    Ascending(g, lo.mag + 1, hi.mag);
    DistanceFromMagnitude(g, neg, x, lo);
    DistanceFromMagnitude(g, neg, x, Num(neg, lo.mag + 1));
    DistanceFromMagnitude(g, neg, x, hi);
  }

  lemma RoundingExists(g: Grid, mode: Mode, neg: bool, x: real)
    requires g.Valid() && SignFits(neg, x)
    ensures exists n :: IsRounding(g, mode, neg, x, n)
  {
    var k := FloorExists(g, Abs(x), g.inf - 1);
    SteppedIsRounding(g, mode, neg, x, k);
  }

  /** The correctly rounded number. */
  ghost function Round(g: Grid, mode: Mode, neg: bool, x: real): Num
    requires g.Valid() && SignFits(neg, x)
  {
    RoundingExists(g, mode, neg, x);
    var n :| IsRounding(g, mode, neg, x, n);
    n
  }

  lemma RoundIsRounding(g: Grid, mode: Mode, neg: bool, x: real)
    requires g.Valid() && SignFits(neg, x)
    ensures IsRounding(g, mode, neg, x, Round(g, mode, neg, x))
  {
    RoundingExists(g, mode, neg, x);
  }

  lemma RoundIs(g: Grid, mode: Mode, neg: bool, x: real, n: Num)
    requires g.Valid() && SignFits(neg, x) && IsRounding(g, mode, neg, x, n)
    ensures Round(g, mode, neg, x) == n
  {
    RoundIsRounding(g, mode, neg, x);
    RoundingUnique(g, mode, neg, x, Round(g, mode, neg, x), n);
  }

  /** Rounding up is the successor on magnitudes: the result is the truncated magnitude or the one after it. */
  lemma RoundIsStepped(g: Grid, mode: Mode, neg: bool, x: real, k: nat)
    requires g.Valid() && SignFits(neg, x) && Floor(g, k, Abs(x))
    ensures Round(g, mode, neg, x) == Stepped(g, mode, neg, k, Abs(x))
  {
    SteppedIsRounding(g, mode, neg, x, k);
    RoundIs(g, mode, neg, x, Stepped(g, mode, neg, k, Abs(x)));
  }

  lemma RoundFloor(g: Grid, mode: Mode, neg: bool, x: real) returns (k: nat)
    requires g.Valid() && SignFits(neg, x)
    ensures Floor(g, k, Abs(x))
    ensures Round(g, mode, neg, x) == Stepped(g, mode, neg, k, Abs(x))
  {
    k := FloorExists(g, Abs(x), g.inf - 1);
    RoundIsStepped(g, mode, neg, x, k);
  }

  // ----- Consequences of the rules -----

  /** A number of the system rounds to itself in every direction. */
  lemma RoundOfNumber(g: Grid, mode: Mode, n: Num, x: real)
    requires g.Valid() && n.mag < g.inf && x == Signed(n.neg, g.v(n.mag))
    ensures SignFits(n.neg, x) && Round(g, mode, n.neg, x) == n
  {
    Ascending(g, 0, n.mag);
    Ascending(g, n.mag, n.mag + 1);
    assert Floor(g, n.mag, Abs(x));
    RoundIsStepped(g, mode, n.neg, x, n.mag);
  }

  lemma RoundMonotone(g: Grid, mode: Mode, negX: bool, x: real, negY: bool, y: real)
    requires g.Valid() && SignFits(negX, x) && SignFits(negY, y) && x <= y
    ensures Le(ValueOf(g, Round(g, mode, negX, x)), ValueOf(g, Round(g, mode, negY, y)))
  {
    var i := RoundFloor(g, mode, negX, x);
    var j := RoundFloor(g, mode, negY, y);
    var m, n := Round(g, mode, negX, x), Round(g, mode, negY, y);
    if negX == negY {
      if negX {
        SteppedMonotone(g, mode, negX, j, Abs(y), i, Abs(x));
        Ascending(g, n.mag, m.mag);
      } else {
        SteppedMonotone(g, mode, negX, i, Abs(x), j, Abs(y));
        Ascending(g, m.mag, n.mag);
      }
    } else if negX {
      Ascending(g, 0, m.mag);
      Ascending(g, 0, n.mag);
    } else {
      RoundOfNumber(g, mode, Num(negX, 0), x);
      RoundOfNumber(g, mode, Num(negY, 0), y);
    }
  }

  lemma SteppedMonotone(g: Grid, mode: Mode, neg: bool, i: nat, a: real, j: nat, b: real)
    requires g.Valid() && Floor(g, i, a) && Floor(g, j, b) && a <= b
    ensures Stepped(g, mode, neg, i, a).mag <= Stepped(g, mode, neg, j, b).mag
  {
    Ascending(g, j + 1, i);
  }

  function Mirror(mode: Mode): Mode {
    match mode
    case RTP => RTN
    case RTN => RTP
    case _ => mode
  }

  /** x is the value of some finite number of the system. */
  ghost predicate Representable(g: Grid, x: real) {
    exists k: nat :: k < g.inf && g.v(k) == Abs(x)
  }

  /**
   The two directed roundings enclose x; they coincide exactly when x is representable, nothing lies strictly
   between them otherwise, and the other two directions return one of the pair.
   */
  lemma RoundBrackets(g: Grid, neg: bool, x: real)
    requires g.Valid() && SignFits(neg, x)
    ensures var down, up := Round(g, RTN, neg, x), Round(g, RTP, neg, x);
            && Le(ValueOf(g, down), Fin(x)) && Le(Fin(x), ValueOf(g, up))
            && (down == up <==> Representable(g, x))
            && (forall c: Num :: IsNum(g, c) && Le(ValueOf(g, down), ValueOf(g, c)) && Le(ValueOf(g, c), ValueOf(g, up))
                  ==> ValueOf(g, c) == ValueOf(g, down) || ValueOf(g, c) == ValueOf(g, up))
            && (Round(g, RTE, neg, x) == down || Round(g, RTE, neg, x) == up)
            && (Round(g, RTZ, neg, x) == if neg then up else down)
  {
    var k := RoundFloor(g, RTN, neg, x);
    RoundIsStepped(g, RTP, neg, x, k);
    RoundIsStepped(g, RTE, neg, x, k);
    RoundIsStepped(g, RTZ, neg, x, k);
    SteppedIsRounding(g, RTN, neg, x, k);
    SteppedIsRounding(g, RTP, neg, x, k);
    var down, up := Round(g, RTN, neg, x), Round(g, RTP, neg, x);
    RepresentableFloor(g, x, k);
    Ascending(g, k, k + 1);
    forall c: Num | IsNum(g, c) && Le(ValueOf(g, down), ValueOf(g, c)) && Le(ValueOf(g, c), ValueOf(g, up))
      ensures ValueOf(g, c) == ValueOf(g, down) || ValueOf(g, c) == ValueOf(g, up)
    {
      NothingBetween(g, neg, x, k, c);
    }
  }

  lemma RepresentableFloor(g: Grid, x: real, k: nat)
    requires g.Valid() && Floor(g, k, Abs(x))
    ensures Representable(g, x) <==> g.v(k) == Abs(x)
  {
    if Representable(g, x) {
      var j: nat :| j < g.inf && g.v(j) == Abs(x);
      Ascending(g, j, k);
      Ascending(g, k + 1, j);
    }
  }

  lemma NothingBetween(g: Grid, neg: bool, x: real, k: nat, c: Num)
    requires g.Valid() && SignFits(neg, x) && Floor(g, k, Abs(x)) && IsNum(g, c)
    requires Le(ValueOf(g, Stepped(g, RTN, neg, k, Abs(x))), ValueOf(g, c))
    requires Le(ValueOf(g, c), ValueOf(g, Stepped(g, RTP, neg, k, Abs(x))))
    ensures || ValueOf(g, c) == ValueOf(g, Stepped(g, RTN, neg, k, Abs(x)))
            || ValueOf(g, c) == ValueOf(g, Stepped(g, RTP, neg, k, Abs(x)))
  {
    Ascending(g, 0, k);
    Ascending(g, 0, c.mag);
    Ascending(g, c.mag, k);
    Ascending(g, k + 1, c.mag);
  }

  /** Exactly when each direction overflows to infinity. */
  lemma RoundOverflows(g: Grid, mode: Mode, neg: bool, x: real)
    requires g.Valid() && SignFits(neg, x)
    ensures Round(g, mode, neg, x).mag == g.inf <==>
            match mode
            case RTE => Abs(x) >= Threshold(g)
            case RTZ => false
            case RTP => !neg && x > g.v(g.inf - 1)
            case RTN => neg && -x > g.v(g.inf - 1)
  {
    var k := RoundFloor(g, mode, neg, x);
    Ascending(g, k, g.inf - 1);
    Ascending(g, k + 1, g.inf - 1);
  }

  /** Exactly when each direction delivers a zero. */
  lemma RoundVanishes(g: Grid, mode: Mode, neg: bool, x: real)
    requires g.Valid() && SignFits(neg, x)
    ensures Round(g, mode, neg, x).mag == 0 <==>
            match mode
            case RTE => 2.0 * Abs(x) <= g.v(1)
            case RTZ => Abs(x) < g.v(1)
            case RTP => if neg then -x < g.v(1) else x == 0.0
            case RTN => if neg then x == 0.0 else x < g.v(1)
  {
    var k := RoundFloor(g, mode, neg, x);
    Ascending(g, 1, k);
    Ascending(g, 0, 1);
  }

  /** The rounding error, measured against the gap at the truncated magnitude. */
  lemma RoundError(g: Grid, mode: Mode, neg: bool, x: real, k: nat)
    requires g.Valid() && SignFits(neg, x) && Floor(g, k, Abs(x)) && Abs(x) < g.v(g.inf)
    requires Round(g, mode, neg, x).mag < g.inf
    ensures var error := Distance(g, Round(g, mode, neg, x), x);
            if mode == RTE then 2.0 * error <= g.v(k + 1) - g.v(k) else error < g.v(k + 1) - g.v(k)
  {
    RoundIsStepped(g, mode, neg, x, k);
    DistanceFromMagnitude(g, neg, x, Round(g, mode, neg, x));
    Ascending(g, k, k + 1);
  }
}
