/** Bitwise operators on naturals, defined bit by bit, and the arithmetic they amount to for
    the masks the kernel uses.  Machine words are naturals with an explicit width. */
module Bits {

  const TWO_16: nat := 0x1_0000
  const TWO_32: nat := 0x1_0000_0000
  const TWO_48: nat := 0x1_0000_0000_0000
  const TWO_52: nat := 0x10_0000_0000_0000
  const TWO_63: nat := 0x8000_0000_0000_0000
  const TWO_64: nat := 0x1_0000_0000_0000_0000

  function Pow2(n: nat): (r: nat)
    ensures r > 0
  {
    if n == 0 then 1 else 2 * Pow2(n - 1)
  }

  function And(a: nat, b: nat): nat {
    if a == 0 || b == 0 then 0
    else 2 * And(a / 2, b / 2) + (if a % 2 == 1 && b % 2 == 1 then 1 else 0)
  }

  function Or(a: nat, b: nat): nat {
    if a == 0 then b
    else if b == 0 then a
    else 2 * Or(a / 2, b / 2) + (if a % 2 == 1 || b % 2 == 1 then 1 else 0)
  }

  lemma MulAtLeast(x: nat, q: nat)
    requires x >= 1
    ensures x * q >= q
  {
  }

  lemma DivUnique(a: nat, q: nat, d: nat, r: nat)
    requires q > 0 && a == d * q + r && r < q
    ensures a / q == d && a % q == r
  {
    var d', r' := a / q, a % q;
    assert a == d' * q + r';
    assert (d - d') * q == d * q - d' * q;
    assert (d' - d) * q == d' * q - d * q;
    if d > d' {
      MulAtLeast(d - d', q);
    } else if d < d' {
      MulAtLeast(d' - d, q);
    }
  }

  /** Halving first and dividing after, or dividing by the double at once. */
  lemma DivTwice(a: nat, q: nat)
    requires q > 0
    ensures (a / 2) / q == a / (2 * q)
    ensures a % (2 * q) == 2 * ((a / 2) % q) + a % 2
  {
    var d, r := (a / 2) / q, (a / 2) % q;
    assert a / 2 == d * q + r;
    assert d * (2 * q) == 2 * (d * q);
    DivUnique(a, 2 * q, d, 2 * r + a % 2);
  }

  /** A mask of `n` low ones keeps exactly the remainder. */
  lemma {:induction false} AndOnes(a: nat, n: nat)
    ensures And(a, Pow2(n) - 1) == a % Pow2(n)
  {
    if n == 0 {
    } else if a == 0 {
    } else {
      AndOnes(a / 2, n - 1);
      DivTwice(a, Pow2(n - 1));
      HalfOfOnes(n);
    }
  }

  lemma HalfOfOnes(n: nat)
    requires n > 0
    ensures (Pow2(n) - 1) / 2 == Pow2(n - 1) - 1 && (Pow2(n) - 1) % 2 == 1
  {
  }

  lemma AndEven(a: nat, m: nat)
    ensures And(a, 2 * m) == 2 * And(a / 2, m)
  {
  }

  /** The mask of `n` ones above `k` zeros. */
  function Mask(k: nat, n: nat): nat {
    if k == 0 then Pow2(n) - 1 else 2 * Mask(k - 1, n)
  }

  /** Such a mask reads off the field of `n` bits at position `k`, in place. */
  lemma {:induction false} AndMask(a: nat, k: nat, n: nat)
    ensures And(a, Mask(k, n)) == Field(a, k, n) * Pow2(k)
  {
    if k == 0 {
      AndOnes(a, n);
    } else {
      AndEven(a, Mask(k - 1, n));
      AndMask(a / 2, k - 1, n);
      FieldHalf(a, k, n);
      DoubleProduct(Field(a, k, n), Pow2(k - 1));
    }
  }

  lemma FieldHalf(a: nat, k: nat, n: nat)
    requires k > 0
    ensures Field(a, k, n) == Field(a / 2, k - 1, n)
  {
    DivTwice(a, Pow2(k - 1));
  }

  function Field(a: nat, k: nat, n: nat): nat {
    a / Pow2(k) % Pow2(n)
  }

  lemma DoubleProduct(x: nat, y: nat)
    ensures x * (2 * y) == 2 * (x * y)
  {
  }

  /** The mask of the 17 topmost bits of a 64-bit word reads off the quotient by 2^47. */
  lemma AndTop17(a: nat)
    requires a < TWO_64
    ensures And(a, 0xffff_8000_0000_0000) == a / 0x8000_0000_0000 * 0x8000_0000_0000
  {
    hide And, Pow2, Mask;
    PowersOfTwo();
    AndMask(a, 47, 17);
    MaskIsShiftedOnes(47, 17);
  }

  lemma {:induction false} MaskIsShiftedOnes(k: nat, n: nat)
    ensures Mask(k, n) == (Pow2(n) - 1) * Pow2(k)
  {
    if k > 0 {
      MaskIsShiftedOnes(k - 1, n);
      DoubleProduct(Pow2(n) - 1, Pow2(k - 1));
    }
  }

  /** The mask of bits 12 to 51, where a page-table entry keeps its frame address. */
  lemma AndFrameBits(a: nat)
    ensures And(a, 0x000f_ffff_ffff_f000) == a / 4096 % 0x100_0000_0000 * 4096
  {
    hide And, Pow2, Mask;
    PowersOfTwo();
    AndMask(a, 12, 40);
    MaskIsShiftedOnes(12, 40);
  }

  /** The mask of the 52 topmost bits of a 64-bit word clears the page offset. */
  lemma AndPageBits(a: nat)
    requires a < TWO_64
    ensures And(a, 0xffff_ffff_ffff_f000) == a - a % 4096
  {
    hide And, Pow2, Mask;
    PowersOfTwo();
    AndMask(a, 12, 52);
    MaskIsShiftedOnes(12, 52);
  }

  lemma AndOne(a: nat)
    ensures And(a, 1) == a % 2
  {
    AndOnes(a, 1);
  }

  lemma OrPageFlags(a: nat, b: nat)
    requires a % 4096 == 0 && b < 4096
    ensures Or(a, b) == a + b
  {
    PowersOfTwo();
    OrBelow(a, b, 12);
  }

  /** Or-ing in bits below the lowest set bit adds them. */
  lemma {:induction false} OrBelow(a: nat, b: nat, k: nat)
    requires a % Pow2(k) == 0 && b < Pow2(k)
    ensures Or(a, b) == a + b
  {
    if k == 0 || a == 0 || b == 0 {
    } else {
      DivTwice(a, Pow2(k - 1));
      OrBelow(a / 2, b / 2, k - 1);
    }
  }

  lemma PowersOfTwo()
    ensures Pow2(3) == 8
    ensures Pow2(12) == 4096
    ensures Pow2(17) == 0x2_0000
    ensures Pow2(40) == 0x100_0000_0000
    ensures Pow2(47) == 0x8000_0000_0000
    ensures Pow2(52) == TWO_52
  {
    assert Pow2(10) == 1024;
    assert Pow2(20) == 0x10_0000;
    assert Pow2(30) == 0x4000_0000;
    assert Pow2(40) == 0x100_0000_0000;
    assert Pow2(50) == 0x4_0000_0000_0000;
  }
}
