/**
 * The package-wide xorshift generator behind the non-secure generators: the
 * 64-bit state `tainer`, seeded once from eight random bytes, and `prng(n)`,
 * which advances the state and reduces it to an index below `n`.
 */
module Prng {
  import opened Bits

  /** A 64-bit unsigned word (Go's `uint64`). */
  type word = bv64

  const MinInt64: int := -0x8000_0000_0000_0000
  const TwoTo63: int := 0x8000_0000_0000_0000
  const TwoTo64: int := 0x1_0000_0000_0000_0000

  /** One xorshift step on the state: `t ^= t << 13; t ^= t >> 7; t ^= t << 17`. */
  function XorShift(t: word): word
  {
    XorLeft17(XorRight7(XorLeft13(t)))
  }

  /** `t ^= t << 13` */
  function XorLeft13(x: word): word { x ^ (x << 13) }

  /** `t ^= t >> 7` */
  function XorRight7(x: word): word { x ^ (x >> 7) }

  /** `t ^= t << 17` */
  function XorLeft17(x: word): word { x ^ (x << 17) }

  /** Undoes `XorLeft13`. */
  function UnshiftLeft13(y: word): word
  {
    y ^ (y << 13) ^ (y << 26) ^ (y << 39) ^ (y << 52)
  }

  /** Undoes `XorRight7`. */
  function UnshiftRight7(y: word): word
  {
    y ^ (y >> 7) ^ (y >> 14) ^ (y >> 21) ^ (y >> 28) ^ (y >> 35) ^ (y >> 42) ^ (y >> 49) ^ (y >> 56) ^ (y >> 63)
  }

  /** Undoes `XorLeft17`. */
  function UnshiftLeft17(y: word): word
  {
    y ^ (y << 17) ^ (y << 34) ^ (y << 51)
  }

  /** The state that one xorshift step sends to `t`. */
  function XorShiftInverse(t: word): word
  {
    UnshiftLeft13(UnshiftRight7(UnshiftLeft17(t)))
  }

  lemma UndoLeft13(x: word)
    ensures UnshiftLeft13(x ^ (x << 13)) == x
  {
  }

  lemma UndoRight7(x: word)
    ensures UnshiftRight7(x ^ (x >> 7)) == x
  {
  }

  lemma UndoLeft17(x: word)
    ensures UnshiftLeft17(x ^ (x << 17)) == x
  {
  }

  lemma Left13Inverts(x: word)
    ensures UnshiftLeft13(XorLeft13(x)) == x
  {
    UndoLeft13(x);
  }

  lemma Right7Inverts(x: word)
    ensures UnshiftRight7(XorRight7(x)) == x
  {
    UndoRight7(x);
  }

  lemma Left17Inverts(x: word)
    ensures UnshiftLeft17(XorLeft17(x)) == x
  {
    UndoLeft17(x);
  }

  /** Every state has exactly one successor and the step can be undone. */
  lemma XorShiftInverts(t: word)
    ensures XorShiftInverse(XorShift(t)) == t
  {
    var a := XorLeft13(t);
    var b := XorRight7(a);
    Left17Inverts(b);
    Right7Inverts(a);
    Left13Inverts(t);
  }

  /** So no two states step to the same state: the generator never merges two runs. */
  lemma XorShiftInjective(s: word, t: word)
    ensures XorShift(s) == XorShift(t) ==> s == t
  {
    XorShiftInverts(s);
    XorShiftInverts(t);
  }

  /** The zero state is a fixed point: an unseeded generator would return index 0 forever. */
  lemma ZeroIsFixed()
    ensures XorShift(0) == 0
    ensures forall t: word :: XorShift(t) == 0 ==> t == 0
  {
    forall t: word | XorShift(t) == 0
      ensures t == 0
    {
      XorShiftInjective(t, 0);
    }
  }

  /** Go's conversion `int(tainer)` on a 64-bit platform: the two's-complement reading of the word. */
  function ToInt64(t: word): (k: int)
    ensures MinInt64 <= k < TwoTo63
    ensures k < 0 <==> t >= 0x8000_0000_0000_0000
  {
    if t < 0x8000_0000_0000_0000 then t as int else t as int - TwoTo64
  }

  /** Only the word `2^63` reads as the most negative `int`. */
  lemma MostNegativeOnlyAtTop(t: word)
    ensures ToInt64(t) == MinInt64 ==> t == 0x8000_0000_0000_0000
  {
  }

  lemma TopIsMostNegative()
    ensures ToInt64(0x8000_0000_0000_0000) == MinInt64
  {
  }

  /** Go's `-k` on a 64-bit `int`: wraps around, so the most negative value is its own negation. */
  function Neg64(k: int): (r: int)
    requires MinInt64 <= k < TwoTo63
    ensures MinInt64 <= r < TwoTo63
    ensures k == MinInt64 ==> r == MinInt64
    ensures k != MinInt64 ==> r == -k
  {
    if k == MinInt64 then MinInt64 else -k
  }

  /** Go's `a % n` for `n >= 1`: truncated division, the remainder takes the sign of `a`. */
  function GoRem(a: int, n: int): (r: int)
    requires n >= 1
    ensures -n < r < n
    ensures a >= 0 ==> r == a % n
    ensures a < 0 ==> r <= 0 && r == -((-a) % n)
  {
    if a >= 0 then a % n else -((-a) % n)
  }

  /**
   * `prng(n)` as written: step the state, read it as a signed `int`, negate it
   * if negative (`k = -k`, which wraps for the most negative value) and
   * return `k % n`. Returns the new state and the value.
   */
  function PrngAsWritten(t: word, n: int): (r: (word, int))
    requires n >= 1
    ensures r.0 == XorShift(t)
    ensures -n < r.1 < n
  {
    var next := XorShift(t);
    var k := ToInt64(next);
    (next, GoRem(if k < 0 then Neg64(k) else k, n))
  }

  /** `prng(n)` as intended: the absolute value of the signed state, reduced below `n`. */
  function Prng(t: word, n: int): (r: (word, nat))
    requires n >= 1
    ensures r.0 == XorShift(t)
    ensures r.1 < n
  {
    var next := XorShift(t);
    var k := ToInt64(next);
    (next, (if k < 0 then -k else k) % n)
  }

  /**
   * The two agree on every state except the one stepping to `2^63`, and there
   * too whenever `n` divides `2^63` (as the default alphabet size 64 does).
   */
  lemma PrngAsWrittenAgrees(t: word, n: int)
    requires n >= 1
    ensures PrngAsWritten(t, n).0 == Prng(t, n).0
    ensures XorShift(t) != 0x8000_0000_0000_0000 ==> PrngAsWritten(t, n).1 == Prng(t, n).1
    ensures TwoTo63 % n == 0 ==> PrngAsWritten(t, n).1 == Prng(t, n).1
  {
    var k := ToInt64(XorShift(t));
    MostNegativeOnlyAtTop(XorShift(t));
    if k == MinInt64 && TwoTo63 % n == 0 {
      assert PrngAsWritten(t, n).1 == -(TwoTo63 % n);
    }
  }

  /** The one state whose successor is `2^63`. */
  const EdgeState: word := 0xf9f3c78e_1c306081

  /**
   * From `EdgeState`, `prng(10)` as written returns -8: `k` is the most
   * negative `int`, `-k` leaves it negative and the truncated remainder keeps
   * the sign. The intended value is 8.
   */
  lemma PrngNegativeAtEdge()
    ensures XorShift(EdgeState) == 0x8000_0000_0000_0000
    ensures ToInt64(XorShift(EdgeState)) == MinInt64
    ensures PrngAsWritten(EdgeState, 10).1 == -8
    ensures Prng(EdgeState, 10).1 == 8
  {
  }

  /** `EdgeState` is the only state at which the two disagree. */
  lemma OnlyEdgeStateOverflows(t: word)
    ensures ToInt64(XorShift(t)) == MinInt64 <==> t == EdgeState
  {
    XorShiftInverts(t);
    assert XorShiftInverse(0x8000_0000_0000_0000) == EdgeState;
    MostNegativeOnlyAtTop(XorShift(t));
    TopIsMostNegative();
  }

  /** The state after `count` steps. */
  function Iterate(t: word, count: nat): word
    decreases count
  {
    if count == 0 then t else Iterate(XorShift(t), count - 1)
  }

  /** The values `count` successive calls `prng(n)` return from state `t`. */
  function Draws(t: word, n: int, count: nat): (r: seq<nat>)
    requires n >= 1
    ensures |r| == count
    ensures forall k | 0 <= k < count :: r[k] < n
    decreases count
  {
    if count == 0 then [] else [Prng(t, n).1] + Draws(XorShift(t), n, count - 1)
  }

  /** Consecutive runs of draws concatenate into one run from the same state. */
  lemma {:induction false} DrawsAppend(t: word, n: int, a: nat, b: nat)
    requires n >= 1
    ensures Draws(t, n, a + b) == Draws(t, n, a) + Draws(Iterate(t, a), n, b)
    ensures Iterate(t, a + b) == Iterate(Iterate(t, a), b)
    decreases a
  {
    if a > 0 {
      var t', v := XorShift(t), Prng(t, n).1;
      DrawsAppend(t', n, a - 1, b);
      assert Draws(t, n, a + b) == [v] + Draws(t', n, (a - 1) + b);
      assert Draws(t, n, a) == [v] + Draws(t', n, a - 1);
      assert Iterate(t, a) == Iterate(t', a - 1);
      assert Iterate(t, a + b) == Iterate(t', (a - 1) + b);
    }
  }

  /** One more call appends one draw and one step. */
  lemma DrawsSnoc(t: word, n: int, i: nat)
    requires n >= 1
    ensures Draws(t, n, i + 1) == Draws(t, n, i) + [Prng(Iterate(t, i), n).1]
    ensures Iterate(t, i + 1) == XorShift(Iterate(t, i))
  {
    DrawsAppend(t, n, i, 1);
    var x := Iterate(t, i);
    assert Draws(x, n, 1) == [Prng(x, n).1] + Draws(XorShift(x), n, 0);
    assert Iterate(x, 1) == Iterate(XorShift(x), 0);
  }

  /**
   * The default alphabet has 64 units and 64 divides `2^63`, so the overflow
   * never changes what the default-alphabet non-secure generator draws.
   */
  lemma DefaultSizeUnaffected(t: word)
    ensures PrngAsWritten(t, 64) == Prng(t, 64)
  {
    assert TwoTo63 % 64 == 0;
    PrngAsWrittenAgrees(t, 64);
  }

  /** `binary.BigEndian.Uint64(b)`: eight bytes, most significant first. */
  function BigEndian(bytes: seq<byte>): (v: nat)
    ensures v < Pow2(8 * |bytes|)
  {
    if bytes == [] then 0
    else
      var init := bytes[..|bytes| - 1];
      Pow2Add(8 * |init|, 8);
      assert Pow2(8) == 256;
      BigEndian(init) * 256 + bytes[|bytes| - 1]
  }

  /** The `count` bytes, most significant first, that spell `v` below `256^count`. */
  function BigEndianBytes(v: nat, count: nat): (bytes: seq<byte>)
    ensures |bytes| == count
  {
    if count == 0 then [] else BigEndianBytes(v / 256, count - 1) + [v % 256]
  }

  /** The initial state `init` derives from its eight random bytes. */
  function Seed(bytes: seq<byte>): word
    requires |bytes| == 8
  {
    Pow2Of64();
    BigEndian(bytes) as word
  }

  /** Reading the seed bytes and writing them back gives the same bytes. */
  lemma {:induction false} BigEndianRoundTrip(bytes: seq<byte>)
    ensures BigEndianBytes(BigEndian(bytes), |bytes|) == bytes
  {
    if bytes != [] {
      var init := bytes[..|bytes| - 1];
      var v := BigEndian(bytes);
      assert v / 256 == BigEndian(init) && v % 256 == bytes[|bytes| - 1];
      BigEndianRoundTrip(init);
    }
  }

  /**
   * The package state `tainer` and its lock-protected step. `init` seeds it
   * from eight random bytes, supplied as `seed`.
   */
  class Source {
    var state: word

    constructor (seed: seq<byte>)
      requires |seed| == 8
      ensures state == Seed(seed)
    {
      state := Seed(seed);
    }

    /** `prng(n)`: advances the state and returns an index below `n`. */
    method Next(n: int) returns (r: nat)
      requires n >= 1
      modifies this
      ensures state == XorShift(old(state))
      ensures r == Prng(old(state), n).1
    {
      state := XorLeft13(state);
      state := XorRight7(state);
      state := XorLeft17(state);
      var k := ToInt64(state);
      if k < 0 {
        k := -k;
      }
      r := k % n;
    }
  }

  lemma Pow2Of64()
    ensures Pow2(64) == TwoTo64
  {
    Pow2Add(32, 32);
    Pow2Add(16, 16);
    Pow2Add(8, 8);
    assert Pow2(8) == 256;
  }
}
