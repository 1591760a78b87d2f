/** Bit operations on unbounded naturals, and what they compute in arithmetic. */
module Bits {
  import opened Rounding

  const CONTINUATION_BIT: nat := 0x80
  const PAYLOAD_MASK: nat := 0x7F
  const SHIFT: nat := 7

  function Pow2(k: nat): (p: nat)
    ensures p > 0
  {
    if k == 0 then 1 else 2 * Pow2(k - 1)
  }

  /** `a | b` */
  function BitOr(a: nat, b: nat): nat
    decreases a + b
  {
    if a == 0 && b == 0 then 0
    else 2 * BitOr(a / 2, b / 2) + (if a % 2 == 1 || b % 2 == 1 then 1 else 0)
  }

  /** `a & b` */
  function BitAnd(a: nat, b: nat): nat
    decreases a + b
  {
    if a == 0 || b == 0 then 0
    else 2 * BitAnd(a / 2, b / 2) + (if a % 2 == 1 && b % 2 == 1 then 1 else 0)
  }

  function ShiftLeft(a: nat, k: nat): nat {
    a * Pow2(k)
  }

  function ShiftRight(a: nat, k: nat): nat {
    Quotient(a, Pow2(k))
  }

  function Quotient(a: nat, m: nat): nat
    requires m > 0
  {
    a / m
  }

  lemma OrZero(b: nat)
    ensures BitOr(0, b) == b
  {
  }

  /** Halving a number whose low bit is clear. */
  lemma HalveEven(b: nat, k: nat)
    requires k > 0
    ensures ShiftLeft(b, k) == 2 * ShiftLeft(b, k - 1)
    ensures ShiftLeft(b, k) / 2 == ShiftLeft(b, k - 1) && ShiftLeft(b, k) % 2 == 0
  {
    assert b * (2 * Pow2(k - 1)) == 2 * (b * Pow2(k - 1));
  }

  /** Or-ing a value into the bits above another is addition. */
  lemma {:induction false} OrAboveIsAdd(a: nat, b: nat, k: nat)
    requires a < Pow2(k)
    ensures BitOr(a, ShiftLeft(b, k)) == a + ShiftLeft(b, k)
    decreases k
  {
    if k == 0 {
      OrZero(b);
    } else {
      HalveEven(b, k);
      OrAboveIsAdd(a / 2, b, k - 1);
    }
  }

  lemma DoubleModulus(a: nat, m: nat)
    requires m > 0
    ensures a % (2 * m) == 2 * (a / 2 % m) + a % 2
  {
    var q := a / 2 / m;
    assert q * (2 * m) == 2 * (q * m);
    DivIs(a, 2 * m, q, 2 * (a / 2 % m) + a % 2);
  }

  /** Masking with the low `k` bits is the remainder. */
  lemma {:induction false} MaskIsRemainder(a: nat, k: nat, m: nat)
    requires m == Pow2(k)
    ensures BitAnd(a, m - 1) == a % m
    decreases k
  {
    if k == 0 {
      assert BitAnd(a, 0) == 0;
    } else if a == 0 {
      SmallRemainder(0, m);
    } else {
      var half := Pow2(k - 1);
      MaskStep(a, half);
      MaskIsRemainder(a / 2, k - 1, half);
      DoubleModulus(a, half);
    }
  }

  lemma SmallRemainder(a: nat, m: nat)
    requires a < m
    ensures a % m == a
  {
  }

  lemma MaskStep(a: nat, half: nat)
    requires a > 0 && half > 0
    ensures BitAnd(a, 2 * half - 1) == 2 * BitAnd(a / 2, half - 1) + a % 2
  {
    var b := 2 * half - 1;
    assert b / 2 == half - 1 && b % 2 == 1;
  }

  /** Testing the single bit `k` of a number below `Pow2(k + 1)`. */
  lemma {:induction false} TopBit(a: nat, k: nat)
    requires a < Pow2(k + 1)
    ensures BitAnd(a, Pow2(k)) == if a >= Pow2(k) then Pow2(k) else 0
    decreases k
  {
    if k == 0 {
      assert Pow2(1) == 2 * Pow2(0);
      assert BitAnd(0, 0) == 0;
    } else {
      TopBit(a / 2, k - 1);
    }
  }

  lemma Constants()
    ensures Pow2(SHIFT) == 128 && Pow2(SHIFT + 1) == 256
    ensures PAYLOAD_MASK == Pow2(SHIFT) - 1 && CONTINUATION_BIT == Pow2(SHIFT)
  {
    assert Pow2(1) == 2;
    assert Pow2(3) == 8;
    assert Pow2(5) == 32;
    assert Pow2(7) == 128;
    assert Pow2(8) == 256;
  }

  /** What the byte operations of the varint loops compute. */
  lemma ByteOperations(value: nat)
    ensures BitAnd(value, PAYLOAD_MASK) == value % 128
    ensures ShiftRight(value, SHIFT) == value / 128
    ensures BitOr(value % 128, CONTINUATION_BIT) == value % 128 + 128
    ensures value < 256 ==> (BitAnd(value, CONTINUATION_BIT) == 0 <==> value < 128)
  {
    Constants();
    MaskIsRemainder(value, SHIFT, 128);
    OrAboveIsAdd(value % 128, 1, SHIFT);
    assert ShiftLeft(1, SHIFT) == 128;
    if value < 256 {
      TopBit(value, SHIFT);
    }
  }
}
