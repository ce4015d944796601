/** Bytes, powers of two and bitwise AND on natural numbers, with the arithmetic facts they rest on. */
module Bits {

  /** One byte (Go's `byte`, an unsigned 8-bit value). */
  type byte = x: int | 0 <= x < 256

  function Pow2(k: nat): (p: nat)
    ensures p >= 1
  {
    if k == 0 then 1 else 2 * Pow2(k - 1)
  }

  lemma {:induction false} Pow2Add(a: nat, b: nat)
    ensures Pow2(a + b) == Pow2(a) * Pow2(b)
  {
    if a > 0 {
      Pow2Add(a - 1, b);
    }
  }

  lemma {:induction false} PowersOfTwoAreOrdered(i: nat, j: nat)
    requires i <= j
    ensures Pow2(i) <= Pow2(j)
  {
    if i < j {
      PowersOfTwoAreOrdered(i, j - 1);
    }
  }

  ghost predicate IsPowerOfTwo(n: nat)
  {
    exists k: nat :: n == Pow2(k)
  }

  /** Bitwise AND (`x & y`), one binary digit at a time from the lowest. */
  function BitAnd(x: nat, y: nat): (r: nat)
    ensures r <= x && r <= y
  {
    if x == 0 || y == 0 then 0
    else 2 * BitAnd(x / 2, y / 2) + (if x % 2 == 1 && y % 2 == 1 then 1 else 0)
  }

  /** AND with `k` low one-bits keeps the residue modulo `2^k`. */
  lemma {:induction false} AndLowOnes(x: nat, k: nat)
    ensures BitAnd(x, Pow2(k) - 1) == x % Pow2(k)
  {
    if k > 0 && x > 0 {
      var p := Pow2(k - 1);
      var ones := Pow2(k) - 1;
      assert Pow2(k) == 2 * p && ones == 2 * (p - 1) + 1;
      assert ones / 2 == p - 1 && ones % 2 == 1;
      BitAndOdd(x, ones);
      AndLowOnes(x / 2, k - 1);
      HalveResidue(x, p);
      assert BitAnd(x, ones) == x % (2 * p);
    } else if k == 0 {
      assert Pow2(k) == 1;
    } else {
      ZeroMod(Pow2(k));
    }
  }

  lemma ZeroMod(m: nat)
    requires m >= 1
    ensures 0 % m == 0
  {
  }

  /** AND with an odd mask keeps the low bit of `x` and recurses on the halves. */
  lemma BitAndOdd(x: nat, y: nat)
    requires x > 0 && y % 2 == 1
    ensures BitAnd(x, y) == 2 * BitAnd(x / 2, y / 2) + x % 2
  {
  }

  /** The residue modulo `2p` is twice the residue of `x / 2` modulo `p`, plus the low bit. */
  lemma HalveResidue(x: nat, p: nat)
    requires p >= 1
    ensures x % (2 * p) == 2 * ((x / 2) % p) + x % 2
  {
    var h := x / 2;
    var q, r := h / p, h % p;
    DivMod(h, p);
    assert x == 2 * h + x % 2;
    assert x == q * (2 * p) + (2 * r + x % 2);
    ModUnique(x, 2 * p, q, 2 * r + x % 2);
  }

  lemma DivMod(h: nat, p: nat)
    requires p >= 1
    ensures h == (h / p) * p + h % p
  {
  }

  lemma MulMonotone(a: nat, b: nat, c: nat)
    requires a <= b
    ensures a * c <= b * c
  {
  }

  /** `x % m` is the remainder of any division of `x` by `m`. */
  lemma ModUnique(x: nat, m: nat, q: nat, r: nat)
    requires m >= 1 && x == q * m + r && r < m
    ensures x % m == r
  {
    var q', r' := x / m, x % m;
    assert (q - q') * m == r' - r;
    if q > q' {
      MulMonotone(1, q - q', m);
      assert false;
    } else if q < q' {
      MulMonotone(1, q' - q, m);
      assert false;
    }
  }
}
