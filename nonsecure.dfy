/**
 * The non-secure generators (`StandardNonSecure`, `CustomNonSecure`): every
 * unit of an ID comes from one call of the shared xorshift generator.
 */
module NonSecure {
  import opened Bits
  import opened Alphabet
  import opened Validation
  import opened Prng

  /**
   * A `StandardNonSecure` generator. It allocates and fills a byte buffer and
   * keeps a cursor over it, but draws every unit from `prng(64)` and never
   * advances the cursor, so the buffer is read once and never again.
   */
  class StandardGenerator {
    const length: nat
    const size: nat
    const b: array<byte>
    var offset: nat
    const id: array<char>
    const src: Source

    ghost predicate Valid()
      reads this
    {
      2 <= length <= 255 &&
      size == 6 * length * length && b.Length == size && id.Length == length &&
      b as object != id && offset <= size
    }

    /** The buffer as allocated and filled once (`mrand.Read(b)`) with `entropy`; `src` is the shared state. */
    constructor (length: nat, entropy: seq<byte>, src: Source)
      requires 2 <= length <= 255
      requires |entropy| == 6 * length * length
      ensures Valid() && this.length == length && this.src == src
      ensures offset == 0 && b[..] == entropy
      ensures fresh(b) && fresh(id)
    {
      this.length := length;
      size := 6 * length * length;
      b := new byte[6 * length * length](i requires 0 <= i < |entropy| => entropy[i]);
      offset := 0;
      id := new char[length];
      this.src := src;
    }

    /**
     * One call: `length` draws of `prng(64)` index the default alphabet. The
     * cursor stays where it is, so the refill branch (`refill` is what the
     * random source would deliver) is taken only if the cursor was at the end.
     */
    method Next(refill: seq<byte>) returns (s: string)
      requires Valid()
      requires |refill| == size
      modifies this`offset, b, id, src
      ensures Valid()
      ensures old(offset) == size ==> offset == 0 && b[..] == refill
      ensures old(offset) < size ==> offset == old(offset) && b[..] == old(b[..])
      ensures src.state == Iterate(old(src.state), length)
      ensures s == Spell(DefaultAlphabet(), Draws(old(src.state), 64, length))
      ensures id[..] == s
    {
      if offset == size {
        Read(b, refill);
        offset := 0;
      }
      ghost var start := src.state;
      for i := 0 to length
        modifies id, src
        invariant src.state == Iterate(start, i)
        invariant forall k | 0 <= k < i :: id[k] == DefaultAlphabet()[Draws(start, 64, i)[k]]
      {
        DrawsSnoc(start, 64, i);
        var r := src.Next(64);
        id[i] := DefaultAlphabet()[r];
      }
      s := id[..];
    }
  }

  /**
   * A `CustomNonSecure` generator: the units of `alphabet` and the reused
   * output; `src` is the shared state.
   */
  class CustomGenerator {
    const alphabet: seq<char>
    const length: nat
    const id: array<char>
    const src: Source

    ghost predicate Valid()
      reads this
    {
      2 <= length <= 255 && id.Length == length
    }

    constructor (alphabet: seq<char>, length: nat, src: Source)
      requires 2 <= length <= 255
      ensures Valid() && this.alphabet == alphabet && this.length == length && this.src == src
      ensures fresh(id)
    {
      this.alphabet := alphabet;
      this.length := length;
      id := new char[length];
      this.src := src;
    }

    /**
     * One call: `length` draws of `prng(len(runicSet))` index the alphabet.
     * An empty alphabet would make `prng` divide by zero, hence the requires.
     */
    method Next() returns (s: string)
      requires Valid()
      requires |alphabet| >= 1
      modifies id, src
      ensures src.state == Iterate(old(src.state), length)
      ensures s == Spell(alphabet, Draws(old(src.state), |alphabet|, length))
      ensures id[..] == s
    {
      ghost var start := src.state;
      for i := 0 to length
        modifies id, src
        invariant src.state == Iterate(start, i)
        invariant forall k | 0 <= k < i :: id[k] == alphabet[Draws(start, |alphabet|, i)[k]]
      {
        DrawsSnoc(start, |alphabet|, i);
        var r := src.Next(|alphabet|);
        id[i] := alphabet[r];
      }
      s := id[..];
    }
  }

  /** `StandardNonSecure(length)`: refuses a bad length before allocating anything. */
  method NewStandard(length: int, entropy: seq<byte>, src: Source) returns (r: Result<StandardGenerator>)
    requires !InvalidLength(length) ==> |entropy| == 6 * length * length
    ensures r.Failure? <==> InvalidLength(length)
    ensures r.Failure? ==> r.error == ErrInvalidLength
    ensures r.Success? ==>
      fresh(r.value) && r.value.Valid() && r.value.length == length && r.value.src == src &&
      r.value.offset == 0 && r.value.b[..] == entropy
  {
    if InvalidLength(length) {
      return Failure(ErrInvalidLength);
    }
    var g := new StandardGenerator(length, entropy, src);
    return Success(g);
  }

  /** `CustomNonSecure(alphabet, length)`: refuses a bad length; any alphabet is taken as given. */
  method NewCustom(alphabet: seq<char>, length: int, src: Source) returns (r: Result<CustomGenerator>)
    ensures r.Failure? <==> InvalidLength(length)
    ensures r.Failure? ==> r.error == ErrInvalidLength
    ensures r.Success? ==>
      fresh(r.value) && r.value.Valid() && r.value.alphabet == alphabet &&
      r.value.length == length && r.value.src == src
  {
    if InvalidLength(length) {
      return Failure(ErrInvalidLength);
    }
    var g := new CustomGenerator(alphabet, length, src);
    return Success(g);
  }
}
