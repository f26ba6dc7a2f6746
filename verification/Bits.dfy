/**
 The bit operations of C on unsigned integers: shifts, masks and bitwise and/or, each defined one binary digit at a
 time, with the arithmetic they amount to.
 */
module Bits {
  import opened Powers

  type U16 = n: nat | n < 0x1_0000
  type U32 = n: nat | n < 0x1_0000_0000
  type U64 = n: nat | n < 0x1_0000_0000_0000_0000

  /** Conversions of C: an unsigned type keeps the value modulo its range, a signed one wraps into two's complement. */
  function ToU16(x: int): U16 { x % 0x1_0000 }
  function ToU32(x: int): U32 { x % 0x1_0000_0000 }
  function ToU64(x: int): U64 { x % 0x1_0000_0000_0000_0000 }

  function ToI16(x: int): int {
    if ToU16(x) < 0x8000 then ToU16(x) else ToU16(x) - 0x1_0000
  }

  function ToI32(x: int): int {
    if ToU32(x) < 0x8000_0000 then ToU32(x) else ToU32(x) - 0x1_0000_0000
  }

  function ToI64(x: int): int {
    if ToU64(x) < 0x8000_0000_0000_0000 then ToU64(x) else ToU64(x) - 0x1_0000_0000_0000_0000
  }

  /** x >> k */
  function Shr(x: nat, k: nat): nat {
    if k == 0 then x else Shr(x / 2, k - 1)
  }

  /** x << k, before it is cut to the width of its type. */
  function Shl(x: nat, k: nat): (r: nat)
    ensures r >= x
  {
    if k == 0 then x else 2 * Shl(x, k - 1)
  }

  /** The k lowest bits of x. */
  function Low(x: nat, k: nat): nat {
    if k == 0 then 0 else 2 * Low(x / 2, k - 1) + x % 2
  }

  function And(x: nat, y: nat): nat {
    if x == 0 then 0 else 2 * And(x / 2, y / 2) + (if x % 2 == 1 && y % 2 == 1 then 1 else 0)
  }

  function Or(x: nat, y: nat): nat
    decreases x + y
  {
    if x == 0 && y == 0 then 0 else 2 * Or(x / 2, y / 2) + (if x % 2 == 1 || y % 2 == 1 then 1 else 0)
  }

  // ----- What they amount to -----

  /** A number is the bits above position k and the bits below it. */
  lemma {:induction false} Split(x: nat, k: nat)
    ensures x == Shr(x, k) * Pow2(k) + Low(x, k)
    ensures Low(x, k) < Pow2(k)
  {
    if k > 0 {
      Split(x / 2, k - 1);
      TimesPow2(Shr(x, k), k);
    }
  }

  lemma {:induction false} SplitUnique(x: nat, k: nat, q: nat, r: nat)
    requires r < Pow2(k) && x == q * Pow2(k) + r
    ensures Shr(x, k) == q && Low(x, k) == r
  {
    if k > 0 {
      var t := q * Pow2(k - 1);
      assert q * Pow2(k) == 2 * t;
      SplitUnique(x / 2, k - 1, q, r / 2);
    }
  }

  lemma {:induction false} ShlIsMul(x: nat, k: nat)
    ensures Shl(x, k) == x * Pow2(k)
  {
    if k > 0 {
      ShlIsMul(x, k - 1);
      TimesPow2(x, k);
    }
  }

  /** Masking with 2^k - 1 keeps the k lowest bits. */
  lemma {:induction false} AndMask(x: nat, k: nat)
    ensures And(x, Pow2(k) - 1) == Low(x, k)
    decreases k
  {
    if k == 0 {
      AndZero(x);
    } else if x == 0 {
      LowOfZero(k);
    } else {
      AndMask(x / 2, k - 1);
    }
  }

  lemma {:induction false} AndZero(x: nat)
    ensures And(x, 0) == 0
  {
    if x > 0 {
      AndZero(x / 2);
    }
  }

  lemma {:induction false} LowOfZero(k: nat)
    ensures Low(0, k) == 0
  {
    if k > 0 {
      LowOfZero(k - 1);
    }
  }

  /** Masking with a shifted mask is masking the shifted number. */
  lemma {:induction false} AndShifted(x: nat, y: nat, k: nat)
    ensures And(x, y * Pow2(k)) == And(Shr(x, k), y) * Pow2(k)
    decreases k
  {
    if k > 0 {
      TimesPow2(y, k);
      AndDoubled(x, y * Pow2(k - 1));
      AndShifted(x / 2, y, k - 1);
      TimesPow2(And(Shr(x / 2, k - 1), y), k);
    }
  }

  lemma TimesPow2(q: nat, k: nat)
    requires k > 0
    ensures q * Pow2(k) == 2 * (q * Pow2(k - 1))
  {
  }

  lemma AndDoubled(x: nat, y: nat)
    ensures And(x, 2 * y) == 2 * And(x / 2, y)
  {
  }

  lemma AndOne(x: nat)
    ensures And(x, 1) == x % 2
  {
    AndMask(x, 1);
  }

  /** Testing one bit. */
  lemma AndBit(x: nat, k: nat)
    ensures And(x, Pow2(k)) == (Shr(x, k) % 2) * Pow2(k)
  {
    hide And, Shr, Pow2;
    AndShifted(x, 1, k);
    AndOne(Shr(x, k));
  }

  lemma {:induction false} OrZero(x: nat)
    ensures Or(x, 0) == x && Or(0, x) == x
  {
    if x > 0 {
      OrZero(x / 2);
    }
  }

  /** Or of two numbers without a common bit is their sum. */
  lemma {:induction false} OrDisjoint(x: nat, k: nat, y: nat)
    requires y < Pow2(k)
    ensures Or(x * Pow2(k), y) == x * Pow2(k) + y
    decreases k
  {
    if k == 0 {
      OrZero(x);
    } else {
      var t := x * Pow2(k - 1);
      assert x * Pow2(k) == 2 * t;
      OrDisjoint(x, k - 1, y / 2);
      if t + y > 0 {
        assert Or(2 * t, y) == 2 * Or(t, y / 2) + y % 2;
      }
    }
  }

  /** Setting the top bit of a (k + 1)-bit number. */
  lemma {:induction false} OrTopBit(x: nat, k: nat)
    requires x < 2 * Pow2(k)
    ensures Or(x, Pow2(k)) == Pow2(k) + Low(x, k)
    decreases k
  {
    if k > 0 {
      OrTopBit(x / 2, k - 1);
    } else {
      OrZero(0);
    }
  }

  /** Shifting left and then further right. */
  lemma {:induction false} ShrOfMul(x: nat, j: nat, k: nat)
    ensures Shr(x * Pow2(j), j + k) == Shr(x, k)
    decreases j
  {
    if j > 0 {
      TimesPow2(x, j);
      ShrOfMul(x, j - 1, k);
    }
  }

  /** Dropping k bits commutes with keeping the lowest ones. */
  lemma {:induction false} ShrOfLow(x: nat, j: nat, k: nat)
    ensures Shr(Low(x, j + k), k) == Low(Shr(x, k), j)
    decreases k
  {
    if k > 0 {
      assert Low(x, j + k) / 2 == Low(x / 2, j + k - 1);
      ShrOfLow(x / 2, j, k - 1);
    }
  }

  /** The high part of a sum whose lower summand ends below it. */
  lemma ShrAboveLow(q: nat, y: nat, k: nat)
    ensures Shr(q * Pow2(k) + y, k) == q + Shr(y, k)
    ensures Low(q * Pow2(k) + y, k) == Low(y, k)
  {
    Split(y, k);
    assert q * Pow2(k) + y == (q + Shr(y, k)) * Pow2(k) + Low(y, k);
    SplitUnique(q * Pow2(k) + y, k, q + Shr(y, k), Low(y, k));
  }

  lemma LowOfSmall(x: nat, k: nat)
    requires x < Pow2(k)
    ensures Low(x, k) == x && Shr(x, k) == 0
  {
    SplitUnique(x, k, 0, x);
  }

  /** The lowest bit vanishes under any shift. */
  lemma {:induction false} ShrDropsLowestBit(x: nat, bit: nat, k: nat)
    requires bit <= 1 && k >= 1
    ensures Shr(Or(x, bit), k) == Shr(x, k)
  {
    if x > 0 || bit > 0 {
      assert Or(x, bit) / 2 == Or(x / 2, 0);
      OrZero(x / 2);
    }
  }

  lemma {:induction false} ShrShr(x: nat, j: nat, k: nat)
    ensures Shr(Shr(x, j), k) == Shr(x, j + k)
    decreases j
  {
    if j > 0 {
      ShrShr(x / 2, j - 1, k);
    }
  }

  /** Or on the bits from position k up leaves the bits below alone. */
  lemma {:induction false} OrHigh(a: nat, b: nat, k: nat, y: nat)
    requires y < Pow2(k)
    ensures Or(a * Pow2(k) + y, b * Pow2(k)) == Or(a, b) * Pow2(k) + y
    decreases k
  {
    if k > 0 {
      TimesPow2(a, k);
      TimesPow2(b, k);
      OrStep(a * Pow2(k - 1), y, b * Pow2(k - 1));
      OrHigh(a, b, k - 1, y / 2);
      TimesPow2(Or(a, b), k);
    }
  }

  lemma OrStep(s: nat, y: nat, t: nat)
    ensures Or(2 * s + y, 2 * t) == 2 * Or(s + y / 2, t) + y % 2
  {
    if s == 0 && y == 0 && t == 0 {
    } else {
      assert (2 * s + y) / 2 == s + y / 2 && (2 * s + y) % 2 == y % 2;
    }
  }

  /** Or with all ones. */
  lemma {:induction false} OrMask(x: nat, k: nat)
    requires x < Pow2(k)
    ensures Or(x, Pow2(k) - 1) == Pow2(k) - 1
    decreases k
  {
    if k > 0 {
      OrMask(x / 2, k - 1);
      assert (Pow2(k) - 1) / 2 == Pow2(k - 1) - 1 && (Pow2(k) - 1) % 2 == 1;
    }
  }
}
