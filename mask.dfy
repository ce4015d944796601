/**
 * The mask and block size a custom-alphabet generator derives once, at
 * construction, from the alphabet size `setLen` and the ID length.
 */
module Mask {
  import opened Bits

  lemma Pow2Of32()
    ensures Pow2(8) == 256
    ensures Pow2(32) == 0x1_0000_0000
  {
    assert Pow2(4) == 16;
    Pow2Add(4, 4);
    Pow2Add(8, 8);
    Pow2Add(16, 16);
  }

  /** The number of binary digits of `v` (0 for 0). */
  function BitLen(v: nat): nat
  {
    if v == 0 then 0 else 1 + BitLen(v / 2)
  }

  lemma {:induction false} BitLenBounds(v: nat)
    requires v >= 1
    ensures BitLen(v) >= 1
    ensures Pow2(BitLen(v) - 1) <= v < Pow2(BitLen(v))
  {
    if v > 1 {
      BitLenBounds(v / 2);
    }
  }

  lemma {:induction false} BitLenAtMost(v: nat, k: nat)
    requires v < Pow2(k)
    ensures BitLen(v) <= k
  {
    if v > 0 {
      BitLenAtMost(v / 2, k - 1);
    }
  }

  /**
   * `bits.LeadingZeros32`: the zero bits above the highest set bit of a 32-bit
   * value, 32 for zero. The contract says where the highest set bit is.
   */
  function LeadingZeros32(x: nat): (n: nat)
    requires x < 0x1_0000_0000
    ensures n <= 32
    ensures x < Pow2(32 - n)
    ensures x != 0 ==> n <= 31 && Pow2(31 - n) <= x
  {
    HighestBit(x);
    32 - BitLen(x)
  }

  lemma HighestBit(x: nat)
    requires x < 0x1_0000_0000
    ensures BitLen(x) <= 32 && x < Pow2(BitLen(x))
    ensures x != 0 ==> BitLen(x) >= 1 && Pow2(BitLen(x) - 1) <= x
  {
    Pow2Of32();
    BitLenAtMost(x, 32);
    if x != 0 {
      BitLenBounds(x);
    }
  }

  /** `(uint32(setLen) - 1) | 1`, with the 32-bit wrap-around and the `| 1` written out. */
  function CoverTarget(setLen: nat): (x: nat)
    requires 1 <= setLen <= 0x1_0000_0000
    ensures 1 <= x < 0x1_0000_0000
    ensures setLen - 1 <= x <= setLen
    ensures x % 2 == 1
  {
    var y := (setLen % 0x1_0000_0000 - 1) % 0x1_0000_0000;
    if y % 2 == 0 then y + 1 else y
  }

  /** `mask := (2 << (31 - clz)) - 1` with `clz := bits.LeadingZeros32(CoverTarget(setLen))`. */
  function CustomMask(setLen: nat): (mask: nat)
    requires 1 <= setLen <= 0x1_0000_0000
    ensures mask >= 1
  {
    var clz := LeadingZeros32(CoverTarget(setLen));
    2 * Pow2(31 - clz) - 1
  }

  /**
   * The mask is all ones (`mask + 1` is a power of two), covers every index
   * below `setLen`, and has at most one bit more than `CoverTarget(setLen)`.
   */
  lemma MaskCovers(setLen: nat)
    requires 1 <= setLen <= 0x1_0000_0000
    ensures IsPowerOfTwo(CustomMask(setLen) + 1)
    ensures setLen - 1 <= CoverTarget(setLen) <= CustomMask(setLen)
    ensures CustomMask(setLen) <= 2 * CoverTarget(setLen) - 1
  {
    var x := CoverTarget(setLen);
    var k := 32 - LeadingZeros32(x);
    assert CustomMask(setLen) + 1 == Pow2(k);
  }

  /** No smaller all-ones value covers `CoverTarget(setLen)`. */
  lemma MaskIsLeast(setLen: nat, k: nat)
    requires 1 <= setLen <= 0x1_0000_0000
    requires CoverTarget(setLen) < Pow2(k)
    ensures CustomMask(setLen) <= Pow2(k) - 1
  {
    var x := CoverTarget(setLen);
    var n := LeadingZeros32(x);
    if k < 32 - n {
      // Then Pow2(k) <= Pow2(31 - n) <= x, against the requires.
      PowersOfTwoAreOrdered(k, 31 - n);
      assert false;
    }
    assert n <= 31 && Pow2(32 - n) == 2 * Pow2(31 - n);
    assert CustomMask(setLen) == Pow2(32 - n) - 1;
    PowersOfTwoAreOrdered(32 - n, k);
  }

  /**
   * For two or more units the mask is the least all-ones value covering every
   * index below `setLen` (with one unit the `| 1` makes it 1 where 0 would do).
   */
  lemma MaskIsLeastForAlphabet(setLen: nat, k: nat)
    requires 2 <= setLen <= 0x1_0000_0000
    requires setLen - 1 < Pow2(k)
    ensures CustomMask(setLen) <= Pow2(k) - 1
  {
    var x := CoverTarget(setLen);
    if x == setLen {
      // setLen is odd here and Pow2(k) is even, so setLen - 1 < Pow2(k) leaves room for setLen.
      assert k >= 1;
      assert Pow2(k) == 2 * Pow2(k - 1);
      assert x < Pow2(k);
    }
    MaskIsLeast(setLen, k);
  }

  /**
   * For the alphabets the rejection sampler supports, the mask fits a byte and
   * at least half of the masked values are accepted (`mask + 1 <= 2 * setLen`).
   */
  lemma SmallAlphabetMask(setLen: nat)
    requires 1 <= setLen <= 256
    ensures setLen - 1 <= CustomMask(setLen) <= 255
    ensures CustomMask(setLen) + 1 <= 2 * setLen
  {
    MaskCovers(setLen);
    var x := CoverTarget(setLen);
    if setLen == 256 {
      assert x == 255;
    }
    Pow2Of32();
    assert x < Pow2(8);
    MaskIsLeast(setLen, 8);
    assert x <= setLen && CustomMask(setLen) + 1 <= 2 * x;
  }

  /**
   * The number of random bytes examined per refill: the exact ceiling of
   * `1.6 * mask * length / setLen`.
   */
  function Step(mask: nat, length: nat, setLen: nat): (step: nat)
    requires setLen >= 1
    ensures 5 * setLen * step >= 8 * mask * length
    ensures step == 0 || 5 * setLen * (step - 1) < 8 * mask * length
  {
    var num, den := 8 * mask * length, 5 * setLen;
    (num + den - 1) / den
  }

  lemma StepIsPositive(setLen: nat, length: nat)
    requires 1 <= setLen <= 0x1_0000_0000 && length >= 1
    ensures Step(CustomMask(setLen), length, setLen) >= 1
  {
    var m := CustomMask(setLen);
    MulMonotone(1, m, length);
    assert 8 * m * length >= 8;
    if Step(m, length, setLen) == 0 {
      assert false;
    }
  }

  /**
   * Concrete values: the six-unit alphabet of the package's own test gets
   * mask 7 and examines 40 bytes per refill for 21-unit IDs, and a 64-unit
   * alphabet gets the mask 63 that the default generator uses.
   */
  lemma MaskExamples()
    ensures CustomMask(6) == 7 && Step(7, 21, 6) == 40
    ensures CustomMask(64) == 63
  {
    assert CoverTarget(6) == 5 && BitLen(5) == 3;
    assert Pow2(2) == 4;
    assert CoverTarget(64) == 63 && BitLen(63) == 6;
    assert Pow2(5) == 32;
  }
}
