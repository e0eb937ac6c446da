/** 64-bit words as natural numbers, and the one bitwise operator that is not a division:
    the inclusive or with which descriptors are put together. */
module Bits {
  import opened Arithmetic

  /** One more than the largest `uint64_t`. */
  const U64: nat := 0x1_0000_0000_0000_0000

  /** Where the image of the kernel is mapped. */
  const KERNEL_VA_BASE: nat := 0xFFFF_F000_0000_0000

  type byte = b: nat | b < 256

  /** `(uint64_t)(-1)`, the error value of the allocators. */
  const MINUS_ONE: nat := 0xFFFF_FFFF_FFFF_FFFF

  /** Addition and subtraction of `uint64_t`. */
  function Add64(a: nat, b: nat): (r: nat)
    ensures r < U64
    ensures a + b < U64 ==> r == a + b
  {
    (a + b) % 0x1_0000_0000_0000_0000
  }

  function Sub64(a: nat, b: nat): (r: nat)
    requires a < U64 && b < U64
    ensures r < U64
    ensures Add64(r, b) == a
    ensures b <= a ==> r == a - b
  {
    (a - b) % 0x1_0000_0000_0000_0000
  }

  /** `PAGE_UP` and `PAGE_DOWN` of vma.h. */
  function PageUp(x: nat): (r: nat)
    ensures r % 0x1000 == 0
    ensures x + 0xFFF < U64 ==> x <= r < x + 0x1000
  {
    Add64(x, 0xFFF) / 0x1000 * 0x1000
  }

  function PageDown(x: nat): (r: nat)
    ensures r % 0x1000 == 0 && r <= x < r + 0x1000
  {
    x / 0x1000 * 0x1000
  }

  /** The `|` operator, bit by bit. */
  function BitOr(a: nat, b: nat): nat {
    if a == 0 then b
    else if b == 0 then a
    else 2 * BitOr(a / 2, b / 2) + (if a % 2 == 1 || b % 2 == 1 then 1 else 0)
  }

  function Pow2(k: nat): (p: nat)
    ensures p > 0
  {
    if k == 0 then 1 else 2 * Pow2(k - 1)
  }

  /** One bit of the or, also where an operand is zero. */
  lemma OrUnfold(a: nat, b: nat)
    ensures BitOr(a, b) == 2 * BitOr(a / 2, b / 2) + (if a % 2 == 1 || b % 2 == 1 then 1 else 0)
  {
  }

  /** One step of the induction below: `e` and `f` are the high parts, halved. */
  lemma OrHalve(a: nat, b: nat, e: nat, f: nat)
    ensures BitOr(a + 2 * e, b + 2 * f)
         == 2 * BitOr(a / 2 + e, b / 2 + f) + (if a % 2 == 1 || b % 2 == 1 then 1 else 0)
  {
    OrUnfold(a + 2 * e, b + 2 * f);
    assert (a + 2 * e) / 2 == a / 2 + e && (b + 2 * f) / 2 == b / 2 + f;
  }

  lemma Scale(p: nat, c: nat)
    ensures (2 * p) * c == 2 * (p * c)
  {
  }

  /** An or works on the low `k` bits and on the rest separately. */
  lemma {:induction false} OrSplit(k: nat, a: nat, b: nat, c: nat, d: nat)
    requires a < Pow2(k) && b < Pow2(k)
    ensures BitOr(a, b) < Pow2(k)
    ensures BitOr(a + Pow2(k) * c, b + Pow2(k) * d) == BitOr(a, b) + Pow2(k) * BitOr(c, d)
  {
    if k > 0 {
      var p := Pow2(k - 1);
      Scale(p, c);
      Scale(p, d);
      Scale(p, BitOr(c, d));
      OrHalve(a, b, p * c, p * d);
      OrSplit(k - 1, a / 2, b / 2, c, d);
      OrUnfold(a, b);
    }
  }

  lemma Pow2Plus(j: nat, k: nat)
    ensures Pow2(j + k) == Pow2(j) * Pow2(k)
  {
    if k > 0 {
      Pow2Plus(j, k - 1);
      assert Pow2(j + k) == 2 * Pow2(j + (k - 1));
    } else {
      assert Pow2(k) == 1;
    }
  }

  /** The same where descriptors are cut, after their twelve low bits ... */
  lemma Or12(a: nat, b: nat, c: nat, d: nat)
    requires a < 0x1000 && b < 0x1000
    ensures BitOr(a, b) < 0x1000
    ensures BitOr(a + 0x1000 * c, b + 0x1000 * d) == BitOr(a, b) + 0x1000 * BitOr(c, d)
  {
    assert Pow2(12) == 0x1000;
    OrSplit(12, a, b, c, d);
  }

  /** ... and after a 36-bit field; words whose set bits do not meet are added. */
  lemma Or36(low: nat, high: nat)
    requires low < 0x10_0000_0000
    ensures BitOr(low, 0x10_0000_0000 * high) == low + 0x10_0000_0000 * high
  {
    assert Pow2(12) == 0x1000;
    Pow2Plus(12, 12);
    Pow2Plus(24, 12);
    OrSplit(36, low, 0, 0, high);
  }

  lemma Or12Disjoint(low: nat, high: nat)
    requires low < 0x1000
    ensures BitOr(0x1000 * high, low) == low + 0x1000 * high
    ensures BitOr(low, 0x1000 * high) == low + 0x1000 * high
  {
    Or12(0, low, high, 0);
    Or12(low, 0, 0, high);
  }

  lemma {:induction false} OrSame(a: nat)
    ensures BitOr(a, a) == a
  {
    OrUnfold(a, a);
    if a > 0 {
      OrSame(a / 2);
    }
  }

  /** The bit of a word that has the weight `weight`, a power of two. */
  predicate Bit(w: nat, weight: nat)
    requires weight > 0
  {
    w / weight % 2 == 1
  }

  function Shift(w: nat, k: nat): nat {
    if k == 0 then w else Shift(w / 2, k - 1)
  }

  lemma {:induction false} ShiftIs(w: nat, k: nat)
    ensures Shift(w, k) == w / Pow2(k)
  {
    if k > 0 {
      ShiftIs(w / 2, k - 1);
      Digits(w, 2, Pow2(k - 1));
    }
  }

  lemma OrHalf(a: nat, b: nat)
    ensures BitOr(a, b) / 2 == BitOr(a / 2, b / 2)
    ensures BitOr(a, b) % 2 == 1 <==> a % 2 == 1 || b % 2 == 1
  {
    OrUnfold(a, b);
  }

  lemma {:induction false} OrShift(a: nat, b: nat, k: nat)
    ensures Shift(BitOr(a, b), k) == BitOr(Shift(a, k), Shift(b, k))
  {
    if k > 0 {
      OrHalf(a, b);
      OrShift(a / 2, b / 2, k - 1);
    }
  }

  /** Each bit of an or is the or of the bits. */
  lemma OrBit(a: nat, b: nat, k: nat, p: nat)
    requires p == Pow2(k)
    ensures Bit(BitOr(a, b), p) == (Bit(a, p) || Bit(b, p))
  {
    OrShift(a, b, k);
    ShiftIs(a, k);
    ShiftIs(b, k);
    ShiftIs(BitOr(a, b), k);
    OrHalf(Shift(a, k), Shift(b, k));
  }
}
