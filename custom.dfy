/**
 * The secure custom-alphabet generator (`Custom`): mask-and-reject sampling.
 * Each call refills the buffer, examines its first `step` bytes, keeps
 * `b & mask` when it is below the alphabet size, and stops as soon as
 * `length` indices are kept, refilling again whenever a block runs out.
 */
module Custom {
  import opened Bits
  import opened Alphabet
  import opened Validation
  import opened Mask

  /** Every unit is a single byte, so the byte count `len(alphabet)` is also the unit count. */
  predicate IsAscii(alphabet: seq<char>)
  {
    forall k | 0 <= k < |alphabet| :: alphabet[k] < 128 as char
  }

  /** `b & byte(mask)`: the index a random byte proposes under the byte mask `m`. */
  function Candidate(v: byte, m: byte): (idx: nat)
    ensures idx <= m
  {
    BitAnd(v, m)
  }

  /**
   * The test as the source writes it, `idx < byte(setLen)`: the bound is the
   * alphabet size truncated to a byte.
   */
  predicate AcceptsAsWritten(v: byte, m: byte, setLen: nat)
  {
    Candidate(v, m) < setLen % 256
  }

  /** The intended test: the proposed index names a unit of the alphabet. */
  predicate Accepts(v: byte, m: byte, setLen: nat)
  {
    Candidate(v, m) < setLen
  }

  /** The indices the loop as written keeps from a byte stream. */
  function AcceptedAsWritten(bytes: seq<byte>, m: byte, setLen: nat): (r: seq<nat>)
    ensures |r| <= |bytes|
  {
    if bytes == [] then []
    else
      var v := bytes[|bytes| - 1];
      AcceptedAsWritten(bytes[..|bytes| - 1], m, setLen) + (if AcceptsAsWritten(v, m, setLen) then [Candidate(v, m)] else [])
  }

  /** Below 256 units `byte(setLen)` does not truncate and the two tests agree. */
  lemma AcceptsAsWrittenAgrees(v: byte, m: byte, setLen: nat)
    requires setLen < 256
    ensures AcceptsAsWritten(v, m, setLen) <==> Accepts(v, m, setLen)
  {

  }

  /** So for every alphabet of at most 255 units the loop as written keeps exactly `Accepted`. */
  lemma {:induction false} AsWrittenAgreesBelow256(bytes: seq<byte>, m: byte, setLen: nat)
    requires setLen < 256
    ensures AcceptedAsWritten(bytes, m, setLen) == Accepted(bytes, m, setLen)
  {
    if bytes != [] {
      AsWrittenAgreesBelow256(bytes[..|bytes| - 1], m, setLen);
      AcceptsAsWrittenAgrees(bytes[|bytes| - 1], m, setLen);
    }
  }

  /**
   * With 256 units `byte(setLen)` is 0: the loop as written keeps nothing from
   * any stream, so a call never returns however many refills it reads.
   */
  lemma {:induction false} AsWrittenStarvesAt256(bytes: seq<byte>, m: byte)
    ensures AcceptedAsWritten(bytes, m, 256) == []
  {
    if bytes != [] {
      AsWrittenStarvesAt256(bytes[..|bytes| - 1], m);
    }
  }

  /** The mask 255 proposes every byte as its own index. */
  lemma FullMaskKeepsByte(v: byte)
    ensures Candidate(v, 255) == v
  {
    AndLowOnes(v, 8);
    assert Pow2(8) == 256;
  }

  /** The intended test keeps every byte, unchanged, for 256 units, whose mask is 255. */
  lemma AcceptsAllAt256(bytes: seq<byte>)
    ensures CustomMask(256) == 255
    ensures |Accepted(bytes, 255, 256)| == |bytes|
    ensures forall k | 0 <= k < |bytes| :: Accepted(bytes, 255, 256)[k] == bytes[k]
  {
    SmallAlphabetMask(256);
    NothingRejectedAtFullMask(bytes, 255, 256);
    forall k | 0 <= k < |bytes|
      ensures Accepted(bytes, 255, 256)[k] == bytes[k]
    {
      FullMaskKeepsByte(bytes[k]);
    }
  }

  /** The bytes a call examines: the first `step` bytes of each block it reads, in order. */
  function Examined(blocks: seq<seq<byte>>, step: nat): seq<byte>
    requires forall j | 0 <= j < |blocks| :: step <= |blocks[j]|
  {
    if blocks == [] then []
    else Examined(blocks[..|blocks| - 1], step) + blocks[|blocks| - 1][..step]
  }

  /** The indices kept from a byte stream: the candidates below `setLen`, in stream order. */
  function Accepted(bytes: seq<byte>, m: byte, setLen: nat): (r: seq<nat>)
    ensures |r| <= |bytes|
    ensures forall k | 0 <= k < |r| :: r[k] < setLen
  {
    if bytes == [] then []
    else
      var v := bytes[|bytes| - 1];
      Accepted(bytes[..|bytes| - 1], m, setLen) + (if Accepts(v, m, setLen) then [Candidate(v, m)] else [])
  }

  /** One more byte either adds its candidate or nothing. */
  lemma AcceptedSnoc(bytes: seq<byte>, v: byte, m: byte, setLen: nat)
    ensures Accepted(bytes + [v], m, setLen) ==
      Accepted(bytes, m, setLen) + (if Accepts(v, m, setLen) then [Candidate(v, m)] else [])
  {
    assert (bytes + [v])[..|bytes|] == bytes;
  }

  /** Filtering distributes over concatenation: what one part keeps does not depend on the other. */
  lemma {:induction false} AcceptedAppend(s: seq<byte>, t: seq<byte>, m: byte, setLen: nat)
    ensures Accepted(s + t, m, setLen) == Accepted(s, m, setLen) + Accepted(t, m, setLen)
  {
    if t == [] {
      assert s + t == s;
    } else {
      var t', v := t[..|t| - 1], t[|t| - 1];
      var last := if Accepts(v, m, setLen) then [Candidate(v, m)] else [];
      assert t == t' + [v];
      assert s + t == (s + t') + [v];
      AcceptedAppend(s, t', m, setLen);
      AcceptedSnoc(s + t', v, m, setLen);
      AcceptedSnoc(t', v, m, setLen);
      assert Accepted(s + t, m, setLen) == (Accepted(s, m, setLen) + Accepted(t', m, setLen)) + last;
      assert Accepted(t, m, setLen) == Accepted(t', m, setLen) + last;
    }
  }

  /** When every candidate is in range (the alphabet size is `mask + 1`) nothing is rejected. */
  lemma {:induction false} NothingRejectedAtFullMask(bytes: seq<byte>, m: byte, setLen: nat)
    requires m < setLen
    ensures |Accepted(bytes, m, setLen)| == |bytes|
    ensures forall k | 0 <= k < |bytes| :: Accepted(bytes, m, setLen)[k] == Candidate(bytes[k], m)
  {
    if bytes != [] {
      var init := bytes[..|bytes| - 1];
      NothingRejectedAtFullMask(init, m, setLen);
      assert bytes == init + [bytes[|bytes| - 1]];
    }
  }

  lemma {:induction false} ExaminedAppend(xs: seq<seq<byte>>, ys: seq<seq<byte>>, step: nat)
    requires forall j | 0 <= j < |xs| :: step <= |xs[j]|
    requires forall j | 0 <= j < |ys| :: step <= |ys[j]|
    ensures forall j | 0 <= j < |xs + ys| :: step <= |(xs + ys)[j]|
    ensures Examined(xs + ys, step) == Examined(xs, step) + Examined(ys, step)
  {
    if ys == [] {
      assert xs + ys == xs;
    } else {
      var ys' := ys[..|ys| - 1];
      assert (xs + ys)[..|xs + ys| - 1] == xs + ys';
      ExaminedAppend(xs, ys', step);
    }
  }

  /** Only the first `step` bytes of each block matter: the rest of the buffer is never read. */
  lemma {:induction false} ExaminedIgnoresTail(blocks: seq<seq<byte>>, other: seq<seq<byte>>, step: nat)
    requires |blocks| == |other|
    requires forall j | 0 <= j < |blocks| :: step <= |blocks[j]| && step <= |other[j]|
    requires forall j | 0 <= j < |blocks| :: blocks[j][..step] == other[j][..step]
    ensures Examined(blocks, step) == Examined(other, step)
  {
    if blocks != [] {
      ExaminedIgnoresTail(blocks[..|blocks| - 1], other[..|other| - 1], step);
    }
  }

  /** A prefix that already holds `n` kept indices fixes the first `n` kept indices of the whole stream. */
  lemma FirstAcceptedAreFixed(prefix: seq<byte>, rest: seq<byte>, m: byte, setLen: nat)
    ensures |Accepted(prefix, m, setLen)| <= |Accepted(prefix + rest, m, setLen)|
    ensures Accepted(prefix + rest, m, setLen)[..|Accepted(prefix, m, setLen)|] == Accepted(prefix, m, setLen)
  {
    AcceptedAppend(prefix, rest, m, setLen);
  }

  /** Reading one more block adds its first `step` bytes to the examined stream. */
  lemma ExaminedSnoc(blocks: seq<seq<byte>>, j: nat, step: nat)
    requires j < |blocks|
    requires forall k | 0 <= k < |blocks| :: step <= |blocks[k]|
    ensures Examined(blocks[..j + 1], step) == Examined(blocks[..j], step) + blocks[j][..step]
  {
    assert blocks[..j + 1][..j] == blocks[..j];
  }

  /**
   * Once the bytes examined so far, up to byte `i` of block `j`, hold `n`
   * kept indices, those are the first `n` kept indices of every longer run.
   */
  lemma CompletedWithin(blocks: seq<seq<byte>>, j: nat, i: nat, step: nat, m: byte, setLen: nat)
    requires j < |blocks| && i < step
    requires forall k | 0 <= k < |blocks| :: step <= |blocks[k]|
    ensures var consumed := Examined(blocks[..j], step) + blocks[j][..i + 1];
      var n := |Accepted(consumed, m, setLen)|;
      n <= |Accepted(Examined(blocks[..j + 1], step), m, setLen)| &&
      n <= |Accepted(Examined(blocks, step), m, setLen)| &&
      Accepted(Examined(blocks, step), m, setLen)[..n] == Accepted(consumed, m, setLen)
  {
    var consumed := Examined(blocks[..j], step) + blocks[j][..i + 1];
    var leftover := blocks[j][i + 1..step];
    assert blocks[j][..step] == blocks[j][..i + 1] + leftover;
    ExaminedSnoc(blocks, j, step);
    assert Examined(blocks[..j + 1], step) == consumed + leftover;
    FirstAcceptedAreFixed(consumed, leftover, m, setLen);
    assert blocks == blocks[..j + 1] + blocks[j + 1..];
    ExaminedAppend(blocks[..j + 1], blocks[j + 1..], step);
    var rest := Examined(blocks[j + 1..], step);
    assert Examined(blocks, step) == consumed + (leftover + rest);
    FirstAcceptedAreFixed(consumed, leftover + rest, m, setLen);
  }

  /** A `Custom` generator: the unit table, the derived `mask` and `step`, the buffer and the reused output. */
  class CustomGenerator {
    const alphabet: seq<char>
    const setLen: nat
    /** The mask always fits a byte here, so `byte(mask)` is `mask` itself. */
    const mask: byte
    const step: nat
    const length: nat
    const b: array<byte>
    const id: array<char>

    ghost predicate Valid()
      reads this
    {
      2 <= length <= 255 &&
      1 <= setLen <= 256 && |alphabet| == setLen && IsAscii(alphabet) &&
      mask == CustomMask(setLen) && step == Step(mask, length, setLen) && step >= 1 &&
      b.Length == 6 * step * step && step <= b.Length &&
      id.Length == length && b as object != id
    }

    constructor (alphabet: seq<char>, length: nat)
      requires 2 <= length <= 255
      requires 1 <= |alphabet| <= 256 && IsAscii(alphabet)
      ensures Valid() && this.alphabet == alphabet && this.length == length
      ensures fresh(b) && fresh(id)
    {
      this.alphabet := alphabet;
      this.length := length;
      setLen := |alphabet|;
      SmallAlphabetMask(|alphabet|);
      mask := CustomMask(|alphabet|);
      StepIsPositive(|alphabet|, length);
      var st := Step(CustomMask(|alphabet|), length, |alphabet|);
      step := st;
      MulMonotone(1, 6 * st, st);
      b := new byte[6 * st * st];
      id := new char[length];
    }

    /**
     * One call. `blocks` are the successive contents the random source gives
     * the buffer; the call must find `length` acceptable bytes among them.
     * `used` is the number of refills the call performs.
     */
    method Next(blocks: seq<seq<byte>>) returns (s: string, ghost used: nat)
      requires Valid()
      requires forall j | 0 <= j < |blocks| :: |blocks[j]| == b.Length
      requires length <= |Accepted(Examined(blocks, step), mask, setLen)|
      modifies b, id
      ensures 1 <= used <= |blocks|
      ensures |Accepted(Examined(blocks[..used - 1], step), mask, setLen)| < length
      ensures length <= |Accepted(Examined(blocks[..used], step), mask, setLen)|
      ensures b[..] == blocks[used - 1]
      ensures s == Spell(alphabet, Accepted(Examined(blocks, step), mask, setLen)[..length])
      ensures id[..] == s
    {
      var u := 0;
      var j := 0;
      while j < |blocks|
        invariant 0 <= j <= |blocks|
        invariant u == |Accepted(Examined(blocks[..j], step), mask, setLen)| && u < length
        invariant forall k | 0 <= k < u ::
          id[k] == alphabet[Accepted(Examined(blocks[..j], step), mask, setLen)[k]]
        decreases |blocks| - j
      {
        Read(b, blocks[j]);
        ghost var before := Examined(blocks[..j], step);
        ghost var consumed;
        u, consumed := Scan(before, u);
        assert b[..consumed] == blocks[j][..consumed];
        ExaminedSnoc(blocks, j, step);
        if u == length {
          s := id[..];
          used := j + 1;
          StopsWithin(blocks, j, consumed, step, mask, setLen, alphabet, s);
          return;
        }
        assert blocks[j][..consumed] == blocks[j][..step];
        j := j + 1;
      }
      WholePrefix(blocks);
      assert false;
    }

    /**
     * The sampling loop over one filled buffer: examines `b[:step]` in order,
     * appending `alphabet[b & mask]` for each byte it accepts, and stops once
     * `length` units are in `id`. `before` is what earlier blocks supplied and
     * `consumed` the number of bytes this pass examined.
     */
    method Scan(ghost before: seq<byte>, u0: nat) returns (u: nat, ghost consumed: nat)
      requires Valid()
      requires u0 == |Accepted(before, mask, setLen)| < length
      requires forall k | 0 <= k < u0 :: id[k] == alphabet[Accepted(before, mask, setLen)[k]]
      modifies id
      ensures consumed <= step && u <= length
      ensures u == |Accepted(before + b[..consumed], mask, setLen)|
      ensures forall k | 0 <= k < u :: id[k] == alphabet[Accepted(before + b[..consumed], mask, setLen)[k]]
      ensures u < length ==> consumed == step
      ensures u == length ==> consumed >= 1
      ensures u == length ==> |Accepted(before + b[..consumed - 1], mask, setLen)| < length
    {
      u := u0;
      ghost var acc := Accepted(before, mask, setLen);
      assert before + b[..0] == before;
      for i := 0 to step
        invariant acc == Accepted(before + b[..i], mask, setLen)
        invariant u == |acc| && u < length
        invariant forall k | 0 <= k < u :: id[k] == alphabet[acc[k]]
      {
        assert before + b[..i + 1] == (before + b[..i]) + [b[i]];
        AcceptedSnoc(before + b[..i], b[i], mask, setLen);
        var idx := Candidate(b[i], mask);
        assert idx < setLen <==> Accepts(b[i], mask, setLen);
        if idx < setLen {
          ghost var short := before + b[..i];
          id[u] := alphabet[idx];
          acc := acc + [idx];
          u := u + 1;
          if u == length {
            consumed := i + 1;
            assert before + b[..consumed - 1] == short;
            return;
          }
        }
      }
      consumed := step;
    }
  }

  /**
   * When the units written so far spell the indices kept from the bytes
   * examined up to byte `consumed` of block `j`, they spell the first kept
   * indices of the whole stream.
   */
  lemma StopsWithin(blocks: seq<seq<byte>>, j: nat, consumed: nat, step: nat, m: byte, setLen: nat,
                    alphabet: seq<char>, out: string)
    requires j < |blocks| && 1 <= consumed <= step && |alphabet| == setLen
    requires forall k | 0 <= k < |blocks| :: step <= |blocks[k]|
    requires var kept := Accepted(Examined(blocks[..j], step) + blocks[j][..consumed], m, setLen);
      |out| == |kept| && forall k | 0 <= k < |out| :: out[k] == alphabet[kept[k]]
    ensures |out| <= |Accepted(Examined(blocks[..j + 1], step), m, setLen)|
    ensures |out| <= |Accepted(Examined(blocks, step), m, setLen)|
    ensures out == Spell(alphabet, Accepted(Examined(blocks, step), m, setLen)[..|out|])
  {
    CompletedWithin(blocks, j, consumed - 1, step, m, setLen);
  }

  lemma WholePrefix(blocks: seq<seq<byte>>)
    ensures blocks[..|blocks|] == blocks
  {
  }

  /** `Custom(alphabet, length)`: refuses a bad length before looking at the alphabet. */
  method NewCustom(alphabet: seq<char>, length: int) returns (r: Result<CustomGenerator>)
    requires !InvalidLength(length) ==> 1 <= |alphabet| <= 256 && IsAscii(alphabet)
    ensures r.Failure? <==> InvalidLength(length)
    ensures r.Failure? ==> r.error == ErrInvalidLength
    ensures r.Success? ==>
      fresh(r.value) && r.value.Valid() && r.value.alphabet == alphabet && r.value.length == length
  {
    if InvalidLength(length) {
      return Failure(ErrInvalidLength);
    }
    var g := new CustomGenerator(alphabet, length);
    return Success(g);
  }
}
