/**
 * The secure default-alphabet generator (`Standard`): an entropy buffer of
 * `6 * length * length` bytes served `length` bytes per call, each byte
 * folded into the 64-unit default alphabet by `& 63`.
 */
module Standard {
  import opened Bits
  import opened Alphabet
  import opened Validation

  /** `defaultAlphabet[v & 63]`: the unit one buffer byte becomes. */
  function Unit(v: byte): char
  {
    DefaultAlphabet()[Index63(v)]
  }

  /** The default-alphabet positions `b & 63` of the consumed bytes. */
  function SixBits(window: seq<byte>): seq<nat>
  {
    seq(|window|, i requires 0 <= i < |window| => Index63(window[i]))
  }

  /** The ID one call spells from the `length` buffer bytes it consumes. */
  function Encode(window: seq<byte>): (s: string)
    ensures |s| == |window|
    ensures forall k | 0 <= k < |s| :: s[k] in DefaultAlphabet()
  {
    Spell(DefaultAlphabet(), SixBits(window))
  }

  /** Reading an ID back: the default-alphabet position of each unit. */
  function Decode(id: string): seq<nat>
  {
    seq(|id|, i requires 0 <= i < |id| => AlphabetIndex(id[i]))
  }

  /**
   * An ID carries exactly the low six bits of each byte it consumed: decoding
   * it gives them back, so no two different six-bit sequences share an ID.
   */
  lemma DecodeEncode(window: seq<byte>)
    ensures Decode(Encode(window)) == SixBits(window)
  {
    forall i | 0 <= i < |window|
      ensures Decode(Encode(window))[i] == SixBits(window)[i]
    {
      AlphabetIndexInverts(Index63(window[i]));
    }
  }

  /** Every encoded ID has one unit per consumed byte, each from the default alphabet. */
  lemma EncodeWellFormed(window: seq<byte>)
    ensures |Encode(window)| == |window|
    ensures forall k | 0 <= k < |window| :: Encode(window)[k] in DefaultAlphabet()
    ensures forall k | 0 <= k < |window| :: Encode(window)[k] == Unit(window[k])
    ensures forall k | 0 <= k < |window| :: Encode(window)[k] == DefaultAlphabet()[window[k] % 64]
  {
  }

  /** Where the cursor stands after one call that started at `offset`. */
  function NextOffset(offset: nat, length: nat, size: nat): nat
  {
    (if offset == size then 0 else offset) + length
  }

  /** The cursor after `calls` calls on a freshly built generator. */
  function OffsetAfter(calls: nat, length: nat, size: nat): nat
  {
    if calls == 0 then 0 else NextOffset(OffsetAfter(calls - 1, length, size), length, size)
  }

  /**
   * A cursor that is a multiple of `length` and short of the end leaves room
   * for a whole ID: `b[i + offset]` is in bounds for every `i < length`.
   */
  lemma {:induction false} CursorRoom(offset: nat, length: nat, size: nat)
    requires length >= 1 && offset < size
    requires offset % length == 0 && size % length == 0
    ensures offset + length <= size
  {
    var q, p := offset / length, size / length;
    assert offset == q * length && size == p * length;
    assert q < p;
    MulMonotone(q + 1, p, length);
  }

  lemma AdvanceKeepsMultiple(offset: nat, length: nat)
    requires length >= 1 && offset % length == 0
    ensures (offset + length) % length == 0
  {
    var q := offset / length;
    assert offset == q * length;
    ModUnique(offset + length, length, q + 1, 0);
  }

  /** Counting IDs within one fill wraps around after `m` calls. */
  lemma ModSucc(n: nat, m: nat)
    requires m >= 1
    ensures (n + 1) % m == if n % m + 1 == m then 0 else n % m + 1
  {
    var q, r := n / m, n % m;
    if r + 1 == m {
      ModUnique(n + 1, m, q + 1, 0);
    } else {
      ModUnique(n + 1, m, q, r + 1);
    }
  }

  /**
   * A buffer of `ids * length` bytes serves exactly `ids` IDs per fill: after
   * `calls >= 1` calls the cursor has moved through `(calls - 1) % ids + 1`
   * IDs of the current fill.
   */
  lemma {:induction false} OffsetAfterCalls(calls: nat, length: nat, ids: nat)
    requires length >= 1 && ids >= 1
    ensures calls >= 1 ==>
      OffsetAfter(calls, length, ids * length) == ((calls - 1) % ids + 1) * length
  {
    var size := ids * length;
    if calls > 1 {
      OffsetAfterCalls(calls - 1, length, ids);
      var r := (calls - 2) % ids;
      ModSucc(calls - 2, ids);
      if r + 1 < ids {
        MulMonotone(r + 2, ids, length);
      }
    }
  }

  /**
   * With the `6 * length * length` buffer of `Standard`, a call refills exactly
   * when the number of calls before it is a positive multiple of `6 * length`.
   */
  lemma RefillsEverySixLengthCalls(calls: nat, length: nat)
    requires length >= 1
    ensures OffsetAfter(calls, length, 6 * length * length) == 6 * length * length
      <==> calls >= 1 && calls % (6 * length) == 0
  {
    var ids := 6 * length;
    assert 6 * length * length == ids * length;
    if calls >= 1 {
      OffsetAfterCalls(calls, length, ids);
      var c := (calls - 1) % ids + 1;
      ModSucc(calls - 1, ids);
      if c < ids {
        MulMonotone(c + 1, ids, length);
      }
    }
  }

  /** A `Standard` generator: the buffer `b`, the cursor `offset` and the reused output `id`. */
  class StandardGenerator {
    const length: nat
    const size: nat
    const b: array<byte>
    var offset: nat
    const id: array<char>

    ghost predicate Valid()
      reads this
    {
      2 <= length <= 255 &&
      size == 6 * length * length && b.Length == size && id.Length == length &&
      b as object != id &&
      offset <= size && offset % length == 0
    }

    /** The buffer as allocated and filled once (`crand.Read(b)`) with `entropy`. */
    constructor (length: nat, entropy: seq<byte>)
      requires 2 <= length <= 255
      requires |entropy| == 6 * length * length
      ensures Valid() && this.length == length
      ensures offset == 0 && b[..] == entropy
      ensures fresh(b) && fresh(id)
    {
      this.length := length;
      size := 6 * length * length;
      b := new byte[6 * length * length](i requires 0 <= i < |entropy| => entropy[i]);
      offset := 0;
      id := new char[length];
    }

    /**
     * One call. `refill` is what the random source delivers if the buffer is
     * used up (`offset == size`); otherwise it is not read.
     */
    method Next(refill: seq<byte>) returns (s: string)
      requires Valid()
      requires |refill| == size
      modifies this`offset, b, id
      ensures Valid()
      ensures old(offset) == size ==> b[..] == refill
      ensures old(offset) < size ==> b[..] == old(b[..])
      ensures offset == NextOffset(old(offset), length, size)
      ensures var start := if old(offset) == size then 0 else old(offset);
        start + length <= size && s == Encode(b[start..start + length])
      ensures id[..] == s
    {
      if offset == size {
        Read(b, refill);
        offset := 0;
      }
      ModUnique(size, length, 6 * length, 0);
      CursorRoom(offset, length, size);
      for i := 0 to length
        modifies id
        invariant forall k | 0 <= k < i :: id[k] == Unit(b[offset + k])
      {
        id[i] := Unit(b[i + offset]);
      }
      s := id[..];
      EncodeWellFormed(b[offset..offset + length]);
      AdvanceKeepsMultiple(offset, length);
      offset := offset + length;
    }
  }

  /** `Standard(length)`: refuses a bad length before allocating anything. */
  method NewStandard(length: int, entropy: seq<byte>) returns (r: Result<StandardGenerator>)
    requires !InvalidLength(length) ==> |entropy| == 6 * length * length
    ensures r.Failure? <==> InvalidLength(length)
    ensures r.Failure? ==> r.error == ErrInvalidLength
    ensures r.Success? ==>
      fresh(r.value) && r.value.Valid() && r.value.length == length &&
      r.value.offset == 0 && r.value.b[..] == entropy
  {
    if InvalidLength(length) {
      return Failure(ErrInvalidLength);
    }
    var g := new StandardGenerator(length, entropy);
    return Success(g);
  }
}
