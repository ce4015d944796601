/** The default 64-unit alphabet and the byte-to-index maps shared by every generator. */
module Alphabet {
  import opened Bits

  /** Unit `k < 64` of the default alphabet: a-z, then A-Z, then 0-9, then '-' and '_'. */
  function AlphabetChar(k: nat): char
  {
    if k < 26 then 'a' + k as char
    else if k < 52 then 'A' + (k - 26) as char
    else if k < 62 then '0' + (k - 52) as char
    else if k == 62 then '-' else '_'
  }

  /** The 64 URL-safe units of the default alphabet (`defaultAlphabet`). */
  function DefaultAlphabet(): (s: string)
    ensures |s| == 64
    ensures forall k | 0 <= k < 64 :: s[k] == AlphabetChar(k)
  {
    seq(64, k requires 0 <= k < 64 => AlphabetChar(k))
  }

  /** The default alphabet is the package's table, four units at a time. */
  lemma DefaultAlphabetTable()
    ensures |DefaultAlphabet()| == 64
    ensures DefaultAlphabet()[0..4] == "abcd" &&
      DefaultAlphabet()[4..8] == "efgh" &&
      DefaultAlphabet()[8..12] == "ijkl" &&
      DefaultAlphabet()[12..16] == "mnop" &&
      DefaultAlphabet()[16..20] == "qrst" &&
      DefaultAlphabet()[20..24] == "uvwx" &&
      DefaultAlphabet()[24..28] == "yzAB" &&
      DefaultAlphabet()[28..32] == "CDEF" &&
      DefaultAlphabet()[32..36] == "GHIJ" &&
      DefaultAlphabet()[36..40] == "KLMN" &&
      DefaultAlphabet()[40..44] == "OPQR" &&
      DefaultAlphabet()[44..48] == "STUV" &&
      DefaultAlphabet()[48..52] == "WXYZ" &&
      DefaultAlphabet()[52..56] == "0123" &&
      DefaultAlphabet()[56..60] == "4567" &&
      DefaultAlphabet()[60..64] == "89-_"
  {
  }

  /** The position of a default-alphabet unit (63 for anything that is not one). */
  function AlphabetIndex(c: char): nat
  {
    if 'a' <= c <= 'z' then (c - 'a') as int
    else if 'A' <= c <= 'Z' then 26 + (c - 'A') as int
    else if '0' <= c <= '9' then 52 + (c - '0') as int
    else if c == '-' then 62
    else 63
  }

  /** Every unit of the default alphabet is told apart by its position, so the 64 units are distinct. */
  lemma AlphabetIndexInverts(k: nat)
    requires k < 64
    ensures AlphabetIndex(DefaultAlphabet()[k]) == k
    ensures forall j | 0 <= j < 64 && j != k :: DefaultAlphabet()[j] != DefaultAlphabet()[k]
  {
    forall j | 0 <= j < 64
      ensures AlphabetIndex(DefaultAlphabet()[j]) == j
    {
    }
  }

  /** The index a byte selects in the default alphabet: `b & 63`. */
  function Index63(b: byte): (r: nat)
    ensures r < 64
    ensures r == b % 64
  {
    AndLowOnes(b, 6);
    assert Pow2(6) == 64;
    BitAnd(b, 63)
  }

  /** The characters a sequence of alphabet indices spells (the copy `string(id)` returns). */
  function Spell(alphabet: seq<char>, indices: seq<nat>): (s: string)
    requires forall k | 0 <= k < |indices| :: indices[k] < |alphabet|
    ensures |s| == |indices|
    ensures forall k | 0 <= k < |s| :: s[k] in alphabet
  {
    seq(|indices|, k requires 0 <= k < |indices| => alphabet[indices[k]])
  }

  /** The byte values, as numbers, that `& 63` sends to residue `r`. */
  function Preimage63(r: nat): set<nat>
  {
    set v: nat | v < 256 && v % 64 == r
  }

  /**
   * Direct masking is unbiased: every index of the default alphabet is hit by
   * exactly four of the 256 byte values, and `Index63` of a byte is its residue.
   */
  lemma MaskedIndexUniform(r: nat)
    requires r < 64
    ensures Preimage63(r) == {r, r + 64, r + 128, r + 192}
    ensures |Preimage63(r)| == 4
    ensures forall b: byte :: Index63(b) == r <==> b in Preimage63(r)
  {
    assert Preimage63(r) == {r, r + 64, r + 128, r + 192};
  }

  /**
   * A random-source read (`crand.Read(b)`, `mrand.Read(b)`): the buffer receives
   * the bytes the source delivers, supplied here as `bytes`.
   */
  method Read(b: array<byte>, bytes: seq<byte>)
    requires |bytes| == b.Length
    modifies b
    ensures b[..] == bytes
  {
    forall i | 0 <= i < b.Length {
      b[i] := bytes[i];
    }
  }
}
