/** Powers of two: as naturals (shift amounts, masks) and as exact reals (values of floating-point data). */
module Powers {

  function Pow2(k: nat): (r: nat)
    ensures r >= 1
  {
    if k == 0 then 1 else 2 * Pow2(k - 1)
  }

  function Exp2(k: int): (r: real)
    ensures r > 0.0
    decreases if k < 0 then -k else k
  {
    if k == 0 then 1.0 else if k > 0 then 2.0 * Exp2(k - 1) else Exp2(k + 1) / 2.0
  }

  lemma Exp2Succ(k: int)
    ensures Exp2(k + 1) == 2.0 * Exp2(k)
  {
  }

  ghost predicate IsProduct(z: real, x: real, y: real)
  {
    z == x * y
  }

  lemma {:induction false} Exp2SumNat(a: int, b: nat)
    ensures IsProduct(Exp2(a + b), Exp2(a), Exp2(b))
  {
    if b > 0 {
      Exp2SumNat(a, b - 1);
      Exp2Succ(a + (b - 1));
      DoubledProduct(Exp2(a), Exp2(b - 1), Exp2(a + (b - 1)), Exp2(b), Exp2(a + b));
    }
  }

  lemma DoubledProduct(x: real, y: real, z: real, y2: real, z2: real)
    requires IsProduct(z, x, y) && y2 == 2.0 * y && z2 == 2.0 * z
    ensures IsProduct(z2, x, y2)
  {
  }

  lemma Exp2Sum(a: int, b: int)
    ensures IsProduct(Exp2(a + b), Exp2(a), Exp2(b))
  {
    if b >= 0 {
      Exp2SumNat(a, b);
    } else {
      Exp2SumNat(a + b, -b);
      Exp2SumNat(b, -b);
      Cancel(Exp2(a), Exp2(a + b), Exp2(-b), Exp2(b));
    }
  }

  lemma Cancel(x: real, y: real, u: real, v: real)
    requires IsProduct(x, y, u) && IsProduct(1.0, v, u)
    ensures IsProduct(y, x, v)
  {
    calc {
      x * v;
      (y * u) * v;
      y * (v * u);
      y;
    }
  }

  lemma {:induction false} Exp2OfNat(k: nat)
    ensures Exp2(k) == Pow2(k) as real
  {
    if k > 0 {
      Exp2OfNat(k - 1);
    }
  }

  lemma {:induction false} Exp2Increases(a: int, b: int)
    requires a < b
    ensures 2.0 * Exp2(a) <= Exp2(b)
    decreases b - a
  {
    Exp2Succ(b - 1);
    if a < b - 1 {
      Exp2Increases(a, b - 1);
    }
  }

  lemma {:induction false} Pow2Sum(a: nat, b: nat)
    ensures Pow2(a + b) == Pow2(a) * Pow2(b)
  {
    if b > 0 {
      Pow2Sum(a, b - 1);
    }
  }

  lemma {:induction false} Pow2Increases(a: nat, b: nat)
    requires a < b
    ensures 2 * Pow2(a) <= Pow2(b)
    decreases b - a
  {
    if a < b - 1 {
      Pow2Increases(a, b - 1);
    }
  }

  lemma Pow2Table()
    ensures Pow2(5) == 0x20 && Pow2(8) == 0x100 && Pow2(10) == 0x400 && Pow2(11) == 0x800
    ensures Pow2(13) == 0x2000 && Pow2(15) == 0x8000 && Pow2(16) == 0x1_0000
    ensures Pow2(22) == 0x40_0000 && Pow2(23) == 0x80_0000 && Pow2(24) == 0x100_0000
    ensures Pow2(31) == 0x8000_0000 && Pow2(32) == 0x1_0000_0000
    ensures Pow2(51) == 0x8_0000_0000_0000 && Pow2(52) == 0x10_0000_0000_0000 && Pow2(53) == 0x20_0000_0000_0000
    ensures Pow2(63) == 0x8000_0000_0000_0000
  {
    assert Pow2(8) == 0x100 && Pow2(11) == 0x800;
    Pow2Sum(8, 8);
    Pow2Sum(11, 11);
    Pow2Sum(16, 15);
    Pow2Sum(32, 11);
    Pow2Sum(43, 8);
    Pow2Sum(52, 11);
  }
}
